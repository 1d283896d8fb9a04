/** The decision logic of the post handlers that does not touch the store: decoding of
    the form fields (`tags`, `published`), the post built by creation, the update
    document built and cleaned by editing, and the two listings. */
module BlogController {
  import opened Wrappers
  import JsText
  import opened UserModel
  import opened BlogModel
  import BlogUpload

  // ---------------------------------------------------------------------------
  // Form fields

  /** What the `tags` field of a request body can hold: nothing, a string (form data),
      or an array of strings (a repeated field or a JSON array). */
  datatype TagsValue = NoTags | TagString(text: string) | TagArray(items: seq<string>)

  /** What the `published` field can hold: nothing, a string (form data) or a boolean (JSON). */
  datatype PublishedValue = NoFlag | FlagString(text: string) | FlagBool(flag: bool)

  /** `published === 'true' || published === true` */
  function CoercePublished(v: PublishedValue): (b: bool)
    ensures b <==> v == FlagString("true") || v == FlagBool(true)
  {
    match v
    case NoFlag => false
    case FlagString(s) => s == "true"
    case FlagBool(f) => f
  }

  /** `.map(t => t.trim())` */
  function TrimAll(pieces: seq<string>): (r: seq<string>)
    ensures |r| == |pieces|
    ensures forall i :: 0 <= i < |r| ==> r[i] == JsText.Trim(pieces[i])
  {
    seq(|pieces|, i requires 0 <= i < |pieces| => JsText.Trim(pieces[i]))
  }

  /** `text.split(',').map(t => t.trim())` */
  function SplitTags(text: string): seq<string> {
    TrimAll(JsText.Split(text, ','))
  }

  /** Splitting yields one tag more than there are commas; every tag is trimmed and
      free of commas. */
  lemma SplitTagsShape(text: string)
    ensures |SplitTags(text)| == JsText.Count(text, ',') + 1
    ensures forall i :: 0 <= i < |SplitTags(text)| ==> JsText.IsTrimmed(SplitTags(text)[i])
    ensures forall i :: 0 <= i < |SplitTags(text)| ==> ',' !in SplitTags(text)[i]
  {
    var pieces := JsText.Split(text, ',');
    JsText.SplitPieces(text, ',');
    forall i | 0 <= i < |pieces|
      ensures JsText.IsTrimmed(SplitTags(text)[i]) && ',' !in SplitTags(text)[i]
    {
      JsText.TrimSpec(pieces[i]);
      var a, b :| && 0 <= a <= b <= |pieces[i]| && JsText.Trim(pieces[i]) == pieces[i][a..b]
                  && (forall k :: 0 <= k < a ==> JsText.IsJsSpace(pieces[i][k]))
                  && (forall k :: b <= k < |pieces[i]| ==> JsText.IsJsSpace(pieces[i][k]));
      assert forall k :: 0 <= k < b - a ==> pieces[i][a..b][k] == pieces[i][a + k];
    }
  }

  /** `tags ? tags.split(',').map(tag => tag.trim()) : []` as `post_blog` runs it;
      `None` where `split` is not a method of the value (an array), which throws. */
  function PostTags(tags: TagsValue): Option<seq<string>> {
    match tags
    case NoTags => Some([])
    case TagString(s) => if s == "" then Some([]) else Some(SplitTags(s))
    case TagArray(_) => None
  }

  /** Missing or empty tags give `[]`; a non-empty string gives commas + 1 trimmed tags;
      an array (even an empty one, which is truthy) makes creation fail. */
  lemma PostTagsCases(tags: TagsValue)
    ensures tags == NoTags || tags == TagString("") ==> PostTags(tags) == Some([])
    ensures tags.TagString? && tags.text != "" ==>
              && PostTags(tags).Some?
              && |PostTags(tags).value| == JsText.Count(tags.text, ',') + 1
              && forall i :: 0 <= i < |PostTags(tags).value| ==> JsText.IsTrimmed(PostTags(tags).value[i])
    ensures tags.TagArray? <==> PostTags(tags).None?
  {
    if tags.TagString? && tags.text != "" {
      SplitTagsShape(tags.text);
    }
  }

  // ---------------------------------------------------------------------------
  // Creation

  /** The multipart fields `post_blog` reads. The body is stored as `description`
      but arrives as `content`. */
  datatype PostForm = PostForm(
    category: Option<string>,
    title: Option<string>,
    content: Option<string>,
    tags: TagsValue,
    published: PublishedValue,
    author: Option<string>)

  /** Where a post image uploaded with `post_blog` is served from; `''` without a file. */
  function BlogImagePath(file: Option<string>): string {
    if JsText.Truthy(file) then "/photo_blog/" + file.value else ""
  }

  /** A post form carries the three fields creation requires. */
  predicate HasRequiredFields(form: PostForm) {
    JsText.Truthy(form.category) && JsText.Truthy(form.title) && JsText.Truthy(form.content)
  }

  /** The document `post_blog` saves: the schema draft with the decoded tags, the
      image path, the coerced flag and the resolved author filled in. */
  function NewBlog(form: PostForm, tags: seq<string>, authorId: UserId, file: Option<string>,
                   slug: string, id: PostId, now: int): Post
    requires HasRequiredFields(form)
  {
    Draft(id, form.title.value, slug, form.category.value, form.content.value, now).(
      tags := tags,
      image := BlogImagePath(file),
      published := CoercePublished(form.published),
      author := Some(authorId))
  }

  /** A created post: published iff the flag was `true` or `"true"`; its description is
      the `content` field; its image `/photo_blog/<file>` or `''`; its title trimmed and
      slug lower-cased; its author the resolved user; counters at 0 and no comments. */
  lemma NewBlogFields(form: PostForm, tags: seq<string>, authorId: UserId, file: Option<string>,
                      slug: string, id: PostId, now: int)
    requires HasRequiredFields(form)
    ensures var p := NewBlog(form, tags, authorId, file, slug, id, now);
      && (p.published <==> form.published == FlagString("true") || form.published == FlagBool(true))
      && p.description == form.content.value && p.category == form.category.value
      && p.title == JsText.Trim(form.title.value) && JsText.IsTrimmed(p.title)
      && p.slug == JsText.Lower(slug) && JsText.IsLower(p.slug)
      && p.image == (if file.Some? && file.value != "" then "/photo_blog/" + file.value else "")
      && p.tags == tags && p.author == Some(authorId) && p.id == id
      && p.likes == p.dislikes == p.views == 0 && p.comments == []
      && p.createdAt == p.updatedAt == now
  {
  }

  // ---------------------------------------------------------------------------
  // Editing

  /** The properties of the `updatedData` object `edit_blog` builds. */
  datatype UpdateKey = TitleKey | CategoryKey | DescriptionKey | TagsKey | PublishedKey | ImageKey

  /** A JavaScript value held by one of those properties. */
  datatype UpdateValue = Undefined | Text(text: string) | Strings(items: seq<string>) | Flag(flag: bool)

  /** The fields `edit_blog` reads from the body. */
  datatype EditForm = EditForm(
    title: Option<string>,
    category: Option<string>,
    description: Option<string>,
    tags: TagsValue,
    published: PublishedValue)

  function TextValue(v: Option<string>): UpdateValue {
    if v.Some? then Text(v.value) else Undefined
  }

  /** `if (typeof tags === "string") tags = tags.split(",").map(t => t.trim())`;
      an array is kept as it is. */
  function EditTags(tags: TagsValue): UpdateValue {
    match tags
    case NoTags => Undefined
    case TagString(s) => Strings(SplitTags(s))
    case TagArray(items) => Strings(items)
  }

  /** Where an image uploaded with `edit_blog` is recorded as served from. */
  function EditImagePath(filename: string): string {
    "/uploads/" + filename
  }

  /** `updatedData` as built: the five fields, `published` already coerced to a
      boolean, and `image` only when a file came with the request. */
  function UpdatedData(form: EditForm, file: Option<string>): map<UpdateKey, UpdateValue> {
    var base := map[TitleKey := TextValue(form.title), CategoryKey := TextValue(form.category),
                    DescriptionKey := TextValue(form.description), TagsKey := EditTags(form.tags),
                    PublishedKey := Flag(CoercePublished(form.published))];
    if file.Some? then base[ImageKey := Text(EditImagePath(file.value))] else base
  }

  /** `Object.keys(updatedData)`, in insertion order. */
  function UpdateKeys(file: Option<string>): seq<UpdateKey> {
    [TitleKey, CategoryKey, DescriptionKey, TagsKey, PublishedKey] + (if file.Some? then [ImageKey] else [])
  }

  lemma UpdateKeysListKeys(form: EditForm, file: Option<string>)
    ensures forall k :: k in UpdatedData(form, file) <==> k in UpdateKeys(file)
  {
  }

  /** The update with every `undefined` property removed. */
  function Defined(data: map<UpdateKey, UpdateValue>): map<UpdateKey, UpdateValue> {
    map k | k in data && data[k] != Undefined :: data[k]
  }

  /** `Object.keys(updatedData).forEach(key => { if (updatedData[key] === undefined)
      delete updatedData[key]; })`: deletes the undefined properties one key at a time. */
  method StripUndefined(data: map<UpdateKey, UpdateValue>, keys: seq<UpdateKey>)
    returns (r: map<UpdateKey, UpdateValue>)
    requires forall k :: k in data <==> k in keys
    ensures forall k :: k in r <==> k in data && data[k] != Undefined
    ensures forall k :: k in r ==> r[k] == data[k]
    ensures r == Defined(data)
  {
    r := data;
    var i := 0;
    while i < |keys|
      invariant 0 <= i <= |keys|
      invariant forall k :: k in r <==> k in data && !(k in keys[..i] && data[k] == Undefined)
      invariant forall k :: k in r ==> r[k] == data[k]
    {
      var k := keys[i];
      if k in r && r[k] == Undefined {
        r := r - {k};
      }
      assert keys[..i + 1] == keys[..i] + [k];
      i := i + 1;
    }
    assert keys[..i] == keys;
  }

  /** `findByIdAndUpdate(id, update)`: every property present overwrites its path (the
      title through the schema's `trim`); the others keep their stored value; the
      timestamps plugin moves `updatedAt` to `now`. */
  function ApplyUpdate(p: Post, u: map<UpdateKey, UpdateValue>, now: int): Post {
    p.(
      title := if TitleKey in u && u[TitleKey].Text? then JsText.Trim(u[TitleKey].text) else p.title,
      category := if CategoryKey in u && u[CategoryKey].Text? then u[CategoryKey].text else p.category,
      description := if DescriptionKey in u && u[DescriptionKey].Text? then u[DescriptionKey].text else p.description,
      tags := if TagsKey in u && u[TagsKey].Strings? then u[TagsKey].items else p.tags,
      published := if PublishedKey in u && u[PublishedKey].Flag? then u[PublishedKey].flag else p.published,
      image := if ImageKey in u && u[ImageKey].Text? then u[ImageKey].text else p.image,
      updatedAt := now)
  }

  /** The stored post after a successful `edit_blog`. */
  function EditedPost(p: Post, form: EditForm, file: Option<string>, now: int): Post {
    ApplyUpdate(p, Defined(UpdatedData(form, file)), now)
  }

  /** What an edit does to a post's content: `published` is always overwritten (an
      omitted flag becomes `false`, since coercion runs before undefined properties are
      removed); string tags are re-split (`""` gives `[""]`), an array is stored as sent,
      omitted tags stay; an omitted title, category or description keeps its stored
      value; the image becomes `/uploads/<file>` only with a file. */
  lemma EditedPostFields(p: Post, form: EditForm, file: Option<string>, now: int)
    ensures var r := EditedPost(p, form, file, now);
      && (r.published <==> form.published == FlagString("true") || form.published == FlagBool(true))
      && (form.published == NoFlag ==> !r.published)
      && (form.tags == NoTags ==> r.tags == p.tags)
      && (form.tags.TagString? ==> r.tags == SplitTags(form.tags.text))
      && (form.tags == TagString("") ==> r.tags == [""])
      && (form.tags.TagArray? ==> r.tags == form.tags.items)
      && r.title == (if form.title.Some? then JsText.Trim(form.title.value) else p.title)
      && r.category == (if form.category.Some? then form.category.value else p.category)
      && r.description == (if form.description.Some? then form.description.value else p.description)
      && r.image == (if file.Some? then "/uploads/" + file.value else p.image)
  {
    DefinedUpdate(form, file);
    if form.tags == TagString("") {
      assert JsText.Split("", ',') == [""];
      assert JsText.Trim("") == "";
    }
  }

  /** The update an edit applies, key by key, once undefined properties are removed. */
  lemma DefinedUpdate(form: EditForm, file: Option<string>)
    ensures var u := Defined(UpdatedData(form, file));
      && PublishedKey in u && u[PublishedKey] == Flag(CoercePublished(form.published))
      && (TitleKey in u <==> form.title.Some?)
      && (TitleKey in u ==> u[TitleKey] == Text(form.title.value))
      && (CategoryKey in u <==> form.category.Some?)
      && (CategoryKey in u ==> u[CategoryKey] == Text(form.category.value))
      && (DescriptionKey in u <==> form.description.Some?)
      && (DescriptionKey in u ==> u[DescriptionKey] == Text(form.description.value))
      && (TagsKey in u <==> !form.tags.NoTags?)
      && (TagsKey in u ==> u[TagsKey] == EditTags(form.tags))
      && (ImageKey in u <==> file.Some?)
      && (ImageKey in u ==> u[ImageKey] == Text(EditImagePath(file.value)))
  {
  }

  /** An edit never changes the slug, the author, the counters, the comments, the
      publication time or the creation time, and it moves `updatedAt` to `now`. */
  lemma EditedPostKeeps(p: Post, form: EditForm, file: Option<string>, now: int)
    ensures var r := EditedPost(p, form, file, now);
      && r.id == p.id && r.slug == p.slug && r.author == p.author
      && r.likes == p.likes && r.dislikes == p.dislikes && r.views == p.views
      && r.comments == p.comments && r.publishedAt == p.publishedAt
      && r.createdAt == p.createdAt && r.updatedAt == now
  {
  }

  /** An image attached by an edit is recorded under `/uploads/`, not under the
      `photo_blog` directory the upload middleware writes to, so the path no longer
      names the stored file. */
  lemma EditImageOutsideBlogDestination(p: Post, form: EditForm, filename: string, now: int)
    ensures var image := EditedPost(p, form, Some(filename), now).image;
      && |image| >= 9 && image[..9] == "/uploads/"
      && !("/" + BlogUpload.BlogDestination + "/" <= image)
  {
    var image := EditedPost(p, form, Some(filename), now).image;
    assert image[1] == 'u';
    assert ("/" + BlogUpload.BlogDestination + "/")[1] == 'p';
  }

  // ---------------------------------------------------------------------------
  // Listings

  predicate Increasing(s: seq<nat>) {
    forall i, j :: 0 <= i < j < |s| ==> s[i] < s[j]
  }

  predicate Distinct<T(==)>(s: seq<T>) {
    forall i, j :: 0 <= i < j < |s| ==> s[i] != s[j]
  }

  lemma IncreasingCons(m: nat, rest: seq<nat>)
    requires Increasing(rest) && forall k :: k in rest ==> m < k
    ensures Increasing([m] + rest)
  {
    var s := [m] + rest;
    forall i, j | 0 <= i < j < |s| ensures s[i] < s[j] {
      assert s[j] == rest[j - 1] && rest[j - 1] in rest;
      if i > 0 {
        assert s[i] == rest[i - 1];
      }
    }
  }

  lemma {:induction false} LeastWitness(s: set<nat>) returns (m: nat)
    requires s != {}
    ensures m in s && forall k :: k in s ==> m <= k
  {
    var x :| x in s;
    var rest := s - {x};
    if rest == {} {
      assert s == {x};
      m := x;
    } else {
      var r := LeastWitness(rest);
      m := if x < r then x else r;
      assert forall k :: k in s ==> k == x || k in rest;
    }
  }

  lemma MinExists(s: set<nat>)
    requires s != {}
    ensures exists m :: m in s && forall k :: k in s ==> m <= k
  {
    var m := LeastWitness(s);
  }

  /** The least element of a non-empty set. */
  function Least(s: set<nat>): (m: nat)
    requires s != {}
    ensures m in s && forall k :: k in s ==> m <= k
  {
    MinExists(s);
    var m :| m in s && forall k :: k in s ==> m <= k; m
  }

  /** A set of ids in ascending order: the natural order in which an unsorted query
      returns documents. */
  function IdsAscending(s: set<nat>): (r: seq<nat>)
    ensures forall k :: k in r <==> k in s
    ensures Increasing(r)
    decreases |s|
  {
    if s == {} then []
    else
      var m := Least(s);
      var rest := IdsAscending(s - {m});
      IncreasingCons(m, rest);
      [m] + rest
  }

  /** The filters the listings use: `{ author: user._id }` and `{ published: true }`. */
  datatype Criterion = ByAuthor(uid: UserId) | PublishedOnly

  predicate Meets(p: Post, c: Criterion) {
    match c
    case ByAuthor(uid) => p.author == Some(uid)
    case PublishedOnly => p.published
  }

  /** The ids among `ids`, in their order, whose post meets `c`. */
  function SelectIds(posts: map<PostId, Post>, ids: seq<PostId>, c: Criterion): (r: seq<PostId>)
    requires forall k :: k in ids ==> k in posts
    ensures forall k :: k in r <==> k in ids && Meets(posts[k], c)
    ensures Increasing(ids) ==> Increasing(r)
  {
    if ids == [] then []
    else
      var rest := SelectIds(posts, ids[1..], c);
      SelectConsIncreasing(ids, rest);
      if Meets(posts[ids[0]], c) then [ids[0]] + rest else rest
  }

  lemma SelectConsIncreasing(ids: seq<nat>, rest: seq<nat>)
    requires ids != [] && forall k :: k in rest ==> k in ids[1..]
    ensures Increasing(ids) && Increasing(rest) ==> Increasing([ids[0]] + rest)
  {
    if Increasing(ids) && Increasing(rest) {
      forall k | k in rest ensures ids[0] < k {
        var j :| 0 <= j < |ids[1..]| && ids[1..][j] == k;
        assert ids[j + 1] == k;
      }
      IncreasingCons(ids[0], rest);
    }
  }

  /** `Blog.find({ author: user._id })` without a sort: the user's post ids in natural order. */
  function AuthoredIds(posts: map<PostId, Post>, uid: UserId): (r: seq<PostId>)
    ensures forall k :: k in r <==> k in posts && posts[k].author == Some(uid)
    ensures Increasing(r)
  {
    SelectIds(posts, IdsAscending(posts.Keys), ByAuthor(uid))
  }

  /** `.sort({ createdAt: -1 })` on ids: later creation first. */
  predicate NewestFirst(posts: map<PostId, Post>, ids: seq<PostId>)
    requires forall k :: k in ids ==> k in posts
  {
    forall i, j :: 0 <= i < j < |ids| ==> posts[ids[i]].createdAt >= posts[ids[j]].createdAt
  }

  lemma NewestFirstCons(posts: map<PostId, Post>, m: PostId, rest: seq<PostId>)
    requires m in posts && forall x :: x in rest ==> x in posts
    requires NewestFirst(posts, rest)
    requires forall x :: x in rest ==> posts[m].createdAt >= posts[x].createdAt
    ensures NewestFirst(posts, [m] + rest)
  {
    var s := [m] + rest;
    forall i, j | 0 <= i < j < |s| ensures posts[s[i]].createdAt >= posts[s[j]].createdAt {
      assert s[j] == rest[j - 1];
      if i > 0 {
        assert s[i] == rest[i - 1];
      }
    }
  }

  lemma DistinctCons<T>(m: T, rest: seq<T>)
    requires Distinct(rest) && m !in rest
    ensures Distinct([m] + rest)
  {
    var s := [m] + rest;
    forall i, j | 0 <= i < j < |s| ensures s[i] != s[j] {
      assert s[j] == rest[j - 1];
      if i > 0 {
        assert s[i] == rest[i - 1];
      }
    }
  }

  lemma HeadNotInTail<T>(s: seq<T>)
    requires s != []
    ensures Distinct(s) ==> s[0] !in s[1..] && Distinct(s[1..])
  {
    if Distinct(s) {
      forall j | 0 <= j < |s[1..]| ensures s[1..][j] != s[0] {
        assert s[1..][j] == s[j + 1];
      }
    }
  }

  /** Putting `k` in front keeps the order when it is at least as new as the head. */
  lemma InsertAtHead(posts: map<PostId, Post>, k: PostId, s: seq<PostId>)
    requires k in posts && forall x :: x in s ==> x in posts
    requires s == [] || posts[k].createdAt >= posts[s[0]].createdAt
    ensures NewestFirst(posts, s) ==> NewestFirst(posts, [k] + s)
    ensures Distinct(s) && k !in s ==> Distinct([k] + s)
  {
    if NewestFirst(posts, s) {
      forall x | x in s ensures posts[k].createdAt >= posts[x].createdAt {
        var j :| 0 <= j < |s| && s[j] == x;
        if j > 0 {
          assert posts[s[0]].createdAt >= posts[s[j]].createdAt;
        }
      }
      NewestFirstCons(posts, k, s);
    }
    if Distinct(s) && k !in s {
      DistinctCons(k, s);
    }
  }

  /** Keeping the head in front keeps the order when `k` went into the tail. */
  lemma InsertBehindHead(posts: map<PostId, Post>, k: PostId, s: seq<PostId>, rest: seq<PostId>)
    requires k in posts && s != [] && forall x :: x in s ==> x in posts
    requires posts[k].createdAt < posts[s[0]].createdAt
    requires forall x :: x in rest <==> x in s[1..] || x == k
    requires NewestFirst(posts, s[1..]) ==> NewestFirst(posts, rest)
    requires Distinct(s[1..]) && k !in s[1..] ==> Distinct(rest)
    ensures NewestFirst(posts, s) ==> NewestFirst(posts, [s[0]] + rest)
    ensures Distinct(s) && k !in s ==> Distinct([s[0]] + rest)
  {
    if NewestFirst(posts, s) {
      assert NewestFirst(posts, s[1..]) by {
        forall i, j | 0 <= i < j < |s[1..]|
          ensures posts[s[1..][i]].createdAt >= posts[s[1..][j]].createdAt
        {
          assert s[1..][i] == s[i + 1] && s[1..][j] == s[j + 1];
        }
      }
      forall x | x in rest ensures posts[s[0]].createdAt >= posts[x].createdAt {
        if x != k {
          var j :| 0 <= j < |s[1..]| && s[1..][j] == x;
          assert s[j + 1] == x;
        }
      }
      NewestFirstCons(posts, s[0], rest);
    }
    HeadNotInTail(s);
    if Distinct(s) && k !in s {
      DistinctCons(s[0], rest);
    }
  }

  /** Insert `k` into a newest-first sequence, before the first id created no later. */
  function InsertNewest(posts: map<PostId, Post>, k: PostId, s: seq<PostId>): (r: seq<PostId>)
    requires k in posts && forall x :: x in s ==> x in posts
    ensures multiset(r) == multiset(s) + multiset{k}
    ensures forall x :: x in r <==> x in s || x == k
    ensures NewestFirst(posts, s) ==> NewestFirst(posts, r)
    ensures Distinct(s) && k !in s ==> Distinct(r)
  {
    if s == [] || posts[k].createdAt >= posts[s[0]].createdAt then
      InsertAtHead(posts, k, s);
      [k] + s
    else
      assert s == [s[0]] + s[1..];
      var rest := InsertNewest(posts, k, s[1..]);
      InsertBehindHead(posts, k, s, rest);
      assert multiset([s[0]] + rest) == multiset{s[0]} + multiset(rest);
      [s[0]] + rest
  }

  /** Insertion sort, newest first; stable for equal creation times. */
  function SortNewest(posts: map<PostId, Post>, s: seq<PostId>): (r: seq<PostId>)
    requires forall x :: x in s ==> x in posts
    ensures multiset(r) == multiset(s)
    ensures forall x :: x in r <==> x in s
    ensures NewestFirst(posts, r)
    ensures Distinct(s) ==> Distinct(r)
  {
    if s == [] then []
    else
      assert s == [s[0]] + s[1..];
      HeadNotInTail(s);
      InsertNewest(posts, s[0], SortNewest(posts, s[1..]))
  }

  /** `find(filter).sort({ createdAt: -1 })`: the ids of the posts meeting `c`, newest first. */
  function MatchingIds(posts: map<PostId, Post>, c: Criterion): (r: seq<PostId>)
    ensures forall k :: k in r <==> k in posts && Meets(posts[k], c)
    ensures Distinct(r)
    ensures NewestFirst(posts, r)
  {
    var all := IdsAscending(posts.Keys);
    var selected := SelectIds(posts, all, c);
    assert Distinct(selected);
    SortNewest(posts, selected)
  }

  /** The posts at `ids`, in order. */
  function PostsAt(posts: map<PostId, Post>, ids: seq<PostId>): (r: seq<Post>)
    requires forall k :: k in ids ==> k in posts
    ensures |r| == |ids| && forall i :: 0 <= i < |r| ==> r[i] == posts[ids[i]]
  {
    seq(|ids|, i requires 0 <= i < |ids| => posts[ids[i]])
  }

  /** `Blog.find({ author: user._id }).sort({ createdAt: -1 })`; drafts included. */
  function OwnerListing(posts: map<PostId, Post>, uid: UserId): seq<Post> {
    PostsAt(posts, MatchingIds(posts, ByAuthor(uid)))
  }

  /** The owner listing holds exactly the posts whose author is the user, published or
      not. */
  lemma OwnerListingExact(posts: map<PostId, Post>, uid: UserId)
    requires forall k :: k in posts ==> posts[k].id == k
    ensures forall p :: p in OwnerListing(posts, uid) <==> p in posts.Values && p.author == Some(uid)
  {
    var ids := MatchingIds(posts, ByAuthor(uid));
    var r := OwnerListing(posts, uid);
    forall p | p in posts.Values && p.author == Some(uid) ensures p in r {
      var k :| k in posts && posts[k] == p;
      var i :| 0 <= i < |ids| && ids[i] == k;
      assert r[i] == p;
    }
  }

  /** The owner listing holds each post once, newest first. */
  lemma OwnerListingOrdered(posts: map<PostId, Post>, uid: UserId)
    requires forall k :: k in posts ==> posts[k].id == k
    ensures var r := OwnerListing(posts, uid);
      && (forall i, j :: 0 <= i < j < |r| ==> r[i].id != r[j].id)
      && (forall i, j :: 0 <= i < j < |r| ==> r[i].createdAt >= r[j].createdAt)
  {
    var ids := MatchingIds(posts, ByAuthor(uid));
    var r := OwnerListing(posts, uid);
    forall i, j | 0 <= i < j < |r| ensures r[i].id != r[j].id && r[i].createdAt >= r[j].createdAt {
      assert r[i] == posts[ids[i]] && r[j] == posts[ids[j]];
    }
  }

  /** The author as `populate('author', 'firstName lastName')` exposes it. */
  datatype AuthorName = AuthorName(id: UserId, firstName: string, lastName: string)

  /** A post with its author reference replaced by the author's names; `None` where the
      reference is missing or names no stored user (populate yields `null`). */
  datatype PublicPost = PublicPost(post: Post, author: Option<AuthorName>)

  function Project(p: Post, users: map<UserId, User>): (v: PublicPost)
    ensures v.post == p
    ensures v.author.Some? <==> p.author.Some? && p.author.value in users
    ensures v.author.Some? ==>
              && v.author.value.id == p.author.value
              && v.author.value.firstName == users[p.author.value].firstName
              && v.author.value.lastName == users[p.author.value].lastName
  {
    if p.author.Some? && p.author.value in users then
      var u := users[p.author.value];
      PublicPost(p, Some(AuthorName(p.author.value, u.firstName, u.lastName)))
    else PublicPost(p, None)
  }

  /** Each post at `ids`, projected. */
  function ProjectAll(posts: map<PostId, Post>, ids: seq<PostId>, users: map<UserId, User>): (r: seq<PublicPost>)
    requires forall k :: k in ids ==> k in posts
    ensures |r| == |ids| && forall i :: 0 <= i < |r| ==> r[i] == Project(posts[ids[i]], users)
  {
    seq(|ids|, i requires 0 <= i < |ids| => Project(posts[ids[i]], users))
  }

  /** `Blog.find({ published: true }).populate('author', 'firstName lastName').sort({ createdAt: -1 })` */
  function PublicListing(posts: map<PostId, Post>, users: map<UserId, User>): seq<PublicPost> {
    ProjectAll(posts, MatchingIds(posts, PublishedOnly), users)
  }

  /** Every entry of the public listing is a stored, published post with its author
      projected, each post appears once, and the order is newest first. */
  lemma PublicListingSound(posts: map<PostId, Post>, users: map<UserId, User>)
    requires forall k :: k in posts ==> posts[k].id == k
    ensures var r := PublicListing(posts, users);
      && (forall i :: 0 <= i < |r| ==> r[i].post in posts.Values && r[i].post.published)
      && (forall i :: 0 <= i < |r| ==> r[i] == Project(r[i].post, users))
      && (forall i, j :: 0 <= i < j < |r| ==> r[i].post.id != r[j].post.id)
      && (forall i, j :: 0 <= i < j < |r| ==> r[i].post.createdAt >= r[j].post.createdAt)
  {
    var ids := MatchingIds(posts, PublishedOnly);
    var r := PublicListing(posts, users);
    forall i | 0 <= i < |r| ensures r[i].post in posts.Values && r[i].post.published {
      assert ids[i] in ids;
      assert r[i].post == posts[ids[i]];
    }
    forall i, j | 0 <= i < j < |r| ensures r[i].post.id != r[j].post.id {
      assert ids[i] in ids && ids[j] in ids;
      assert r[i].post.id == ids[i] && r[j].post.id == ids[j];
    }
    forall i, j | 0 <= i < j < |r| ensures r[i].post.createdAt >= r[j].post.createdAt {
      assert r[i].post == posts[ids[i]] && r[j].post == posts[ids[j]];
    }
  }

  /** Every published post appears in the public listing. */
  lemma PublicListingComplete(posts: map<PostId, Post>, users: map<UserId, User>, k: PostId)
    requires forall k :: k in posts ==> posts[k].id == k
    requires k in posts && posts[k].published
    ensures exists i :: 0 <= i < |PublicListing(posts, users)| && PublicListing(posts, users)[i].post == posts[k]
  {
    var ids := MatchingIds(posts, PublishedOnly);
    var r := PublicListing(posts, users);
    var i :| 0 <= i < |ids| && ids[i] == k;
    assert r[i].post == posts[k];
  }

  /** A draft never reaches the public listing. */
  lemma DraftNotListed(posts: map<PostId, Post>, users: map<UserId, User>, k: PostId)
    requires forall k :: k in posts ==> posts[k].id == k
    requires k in posts && !posts[k].published
    ensures forall i :: 0 <= i < |PublicListing(posts, users)| ==> PublicListing(posts, users)[i].post.id != k
  {
    PublicListingSound(posts, users);
  }

  /** Editing a post with `published` set to `"true"` makes it appear in the next public listing. */
  lemma PublishingEditLists(posts: map<PostId, Post>, users: map<UserId, User>, k: PostId,
                            form: EditForm, file: Option<string>, now: int)
    requires forall k :: k in posts ==> posts[k].id == k
    requires k in posts && form.published == FlagString("true")
    ensures var after := posts[k := EditedPost(posts[k], form, file, now)];
      exists i :: 0 <= i < |PublicListing(after, users)| && PublicListing(after, users)[i].post.id == k
  {
    var after := posts[k := EditedPost(posts[k], form, file, now)];
    EditedPostFields(posts[k], form, file, now);
    assert forall j :: j in after ==> after[j].id == j;
    PublicListingComplete(after, users, k);
  }
}
