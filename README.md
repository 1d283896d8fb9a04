# Blog server CRUD, modelled in Dafny

This project models the request handlers of a small blogging server. The server is an
Express application over two MongoDB collections, `users` and `posts`.

- The store is one object, `Server.Store`. It holds the two collections as maps from
  id to document, plus a log of the file deletions the handlers attempt.
- Each route handler is a method of the store. It validates its inputs in the order
  the code does. It then either answers with an error status and message and leaves
  the store as it was, or it applies exactly the change its postcondition states.
- The decision logic is modelled as functions, with lemmas about them:
  - email validation at registration;
  - the profile merge;
  - decoding of the post form fields;
  - the partial update of a post;
  - the owner and public listings;
  - the account-deletion cascade;
  - the upload middlewares.
- The store keeps the schema invariants (`Server.Store.Valid`):
  - the required user fields are non-empty;
  - email addresses are unique;
  - post slugs are lower-case and unique.

  Every handler preserves them.

Files, one module each:

| file | module | models |
|---|---|---|
| `wrappers.dfy` | `Wrappers` | `Option` and the handler reply |
| `js_text.dfy` | `JsText` | JavaScript string semantics the handlers rely on: truthiness, `\|\|`, `trim`, `split`, `length`, `toLowerCase`, number-to-string |
| `email.dfy` | `EmailFormat` | the registration email regular expression and a validator proved equal to it |
| `credentials.dfy` | `Credentials` | bcrypt and jwt, kept opaque; the session cookie |
| `user_model.dfy` | `UserModel` | the User schema |
| `blog_model.dfy` | `BlogModel` | the Blog schema |
| `upload.dfy` | `Upload` | the profile-photo upload middleware and the MIME filter both middlewares use |
| `blog_upload.dfy` | `BlogUpload` | the post-image upload middleware, including `path.extname` |
| `user_controller.dfy` | `UserController` | the registration checks and the profile merge |
| `blog_controller.dfy` | `BlogController` | tags and `published` decoding, post creation, the edit update, the listings |
| `server.dfy` | `Server` | the store and one method per handler |

### Where the code decides

Each point below follows the code.

- **Email comparison is exact.** The server compares email addresses exactly and with
  case. The only lower-casing happens in the browser. It is done by the sign-up and
  sign-in forms (`client/src/authentication/Signup.jsx:30`,
  `client/src/authentication/Signin.jsx:24`).
  - So with `ADA@X.com` stored, registering `ada@x.com` succeeds
    (`UserController.CaseVariantIsNotDuplicate`).
  - Both addresses are valid and distinct (`EmailFormat.CaseIsSignificant`).
- **Public single-post read ignores `published`.** `publicBlogRead` returns any stored
  post, published or not (`Server.Store.PublicBlogRead`). Only the public listing
  filters out drafts (`BlogController.DraftNotListed`).
- **Two author errors.** A missing author gives "Author information is missing". An
  author email that names no user gives "Author not found".
- **Two image locations.**
  - `post_blog` records images as `/photo_blog/<file>`.
  - `edit_blog` records them as `/uploads/<file>`, although the middleware writes the
    file into `photo_blog` (`BlogController.EditImageOutsideBlogDestination`).
  - A later delete therefore attempts to unlink a path under `/uploads/`.
- **The slug may be empty.** The slug is not a required field; only the unique index
  applies to it.

## Model

| member | source | states |
|---|---|---|
| JsText.Utf16Length | server/src/controller/userController.js:30 | `length` counts UTF-16 code units: at least the number of code points and at most twice it |
| JsText.TrimSpec | server/src/models/blogModel.js:7 | `trim` cuts only JavaScript whitespace, only from the two ends, and leaves neither end on whitespace |
| JsText.TrimIdempotent | server/src/models/blogModel.js:7 | trimming an already trimmed title changes nothing |
| JsText.Split | server/src/controller/blogController.js:20 | `split` always yields at least one piece |
| JsText.JoinSplit | server/src/controller/blogController.js:20 | joining the pieces of `split` with the separator gives back the original string |
| JsText.SplitPieces | server/src/controller/blogController.js:20 | `split` yields one piece more than there are separators, and no piece contains the separator |
| JsText.LowerIsLower | server/src/models/blogModel.js:12 | a lower-cased slug has no upper-case ASCII letter; lower-casing twice is lower-casing once |
| JsText.DecimalRoundTrip | server/src/middleware/blogUpload.js:11 | the numeral of `Date.now()` is a non-empty run of digits that reads back as the same number |
| JsText.DecimalInjective | server/src/middleware/blogUpload.js:11 | two different instants never render to the same numeral |
| EmailFormat.ValidatorSound | server/src/controller/userController.js:21-22 | every address the validator accepts matches the regular expression |
| EmailFormat.ValidatorComplete | server/src/controller/userController.js:21-22 | every address the regular expression matches is accepted by the validator |
| EmailFormat.ValidatorMatchesPattern | server/src/controller/userController.js:21-27 | the validator accepts an address if and only if the regular expression matches it |
| EmailFormat.PatternAtIsFirst | server/src/controller/userController.js:21 | where the pattern matches, its `@` is the first `@` of the address |
| EmailFormat.PatternDotIsLast | server/src/controller/userController.js:21 | where the pattern matches, its `.` is the last dot after the `@` and the domain holds only domain characters |
| EmailFormat.ValidEmailHasOneAt | server/src/controller/userController.js:21-27 | an accepted address contains exactly one `@` |
| EmailFormat.ValidEmailParts | server/src/controller/userController.js:21-27 | an accepted address is local `@` host `.` top: a non-empty local part of `[A-Za-z0-9._%+-]`, a non-empty host of `[A-Za-z0-9.-]`, and two or more ASCII letters after the last dot |
| EmailFormat.CaseIsSignificant | server/src/controller/userController.js:21-38 | `ADA@X.com` and `ada@x.com` are both accepted and are different addresses |
| Credentials.CompareHash | server/src/controller/userController.js:89 | the hash of a password verifies that password, whatever the salt, and no other candidate |
| Credentials.SessionCookie | server/src/controller/userController.js:97-104 | the login cookie carries a token for the user's id, and its max-age of one day in milliseconds equals the token's lifetime |
| UserModel.NewUser | server/src/models/userModel.js:3-53 | a created user keeps the four given fields; bio, qualification, photo and social links default to `""`; both timestamps are the creation time; it has its required fields iff the three names and address are non-empty |
| UserModel.FindByEmail | server/src/controller/userController.js:134 | the lookup finds the user whose address equals the given one exactly, or reports that none has it |
| UserModel.InsertKeepsWellFormed | server/src/models/userModel.js:5-21 | inserting a user with its required fields and an address not yet stored keeps the required-field and unique-email constraints |
| BlogModel.Draft | server/src/models/blogModel.js:3-67 | a new post has a trimmed title and a lower-case slug; image `''`; tags and comments empty; counters 0; unpublished; no author; both timestamps the creation time |
| Upload.FileFilter | server/src/middleware/upload.js:16-23 | a profile photo is accepted iff its MIME type is `image/jpeg`, `image/png` or `image/jpg`; otherwise it is rejected with the invalid-file-type message; the post-image filter in server/src/middleware/blogUpload.js (lines 16-23) is the same function |
| Upload.ProfileFilenameShape | server/src/middleware/upload.js:9-13 | a stored photo is named `<_id>.jpg` whatever the original extension, and `unknown.jpg` without an `_id` |
| Upload.ProfileFilenameDeterminedById | server/src/middleware/upload.js:6-11 | two uploads get the same file name exactly when they carry the same `_id`, a missing or empty `_id` counting as `unknown`, so a new photo replaces the previous one and every upload without an `_id` overwrites the same `unknown.jpg` |
| BlogUpload.ExtNameShape | server/src/middleware/blogUpload.js:10 | an extension is empty, or a dot followed by text with no dot and no slash |
| BlogUpload.ExtNameIsSuffix | server/src/middleware/blogUpload.js:10 | for a plain file name the extension is a suffix of the name |
| BlogUpload.ExtNameEmptyCases | server/src/middleware/blogUpload.js:10 | a name without a dot, or whose only dot is its first character, has an empty extension |
| BlogUpload.ExtNameOfDotted | server/src/middleware/blogUpload.js:10 | a plain name with a dot after its first character gets its extension with the dot: the text from the last dot on (`photo.jpg` gives `.jpg`) |
| BlogUpload.BlogFilenameShape | server/src/middleware/blogUpload.js:9-13 | a post-image name is the digits of `now`, a `-`, then the field name, and it ends in the original extension |
| BlogUpload.BlogFilenameDeterminesNow | server/src/middleware/blogUpload.js:11 | equal post-image names were made at the same instant |
| BlogUpload.BlogFilenamesDistinct | server/src/middleware/blogUpload.js:6-11 | uploads at different instants never get the same name |
| UserController.RegisterError | server/src/controller/userController.js:13-44 | registration is accepted iff all four fields are non-empty, the address is valid, the password has at least 6 UTF-16 units and no stored user has the address |
| UserController.RegisterCheckOrder | server/src/controller/userController.js:13-44 | which message rejects a registration: a missing field first; then a bad address; then a short password; then a duplicate. Each is stated as an iff against the regular expression |
| UserController.RegisterAccepts | server/src/controller/userController.js:21-44 | an accepted registration has an address matching the pattern with exactly one `@`, a password of at least six UTF-16 units (so at least three code points), and an address no stored user has |
| UserController.CaseVariantIsNotDuplicate | server/src/controller/userController.js:38-44 | with only `ADA@X.com` stored, registering `ada@x.com` passes every check |
| UserController.EditedProfileFields | server/src/controller/userController.js:168-183 | each of the eight text fields is overwritten iff the incoming value is non-empty; the photo becomes `/photo_user/<file>` iff a file came; id, address, password hash and creation time never change; a document that changed at all has `updatedAt` moved to the edit's instant; required fields stay present |
| UserController.ProfilePhotoPathNamesStoredFile | server/src/controller/userController.js:170 | a new profile photo is recorded as `/photo_user/<file>`, the directory the photo middleware writes to (upload.js line 6), ending in the stored file's name |
| UserController.EditedProfileIdempotent | server/src/controller/userController.js:174-183 | sending the same profile edit twice changes nothing the second time, `updatedAt` included |
| UserController.EmptyEditIsNoOp | server/src/controller/userController.js:174-183 | an edit with every field empty or missing and no file leaves the document untouched, `updatedAt` included |
| BlogController.CoercePublished | server/src/controller/blogController.js:57 | `published` is true iff the field is the boolean `true` or the string `"true"` |
| BlogController.SplitTagsShape | server/src/controller/blogController.js:136 | splitting tags gives one tag more than there are commas; each tag is trimmed and free of commas |
| BlogController.PostTagsCases | server/src/controller/blogController.js:20 | at creation, missing or empty tags give `[]`; a non-empty string gives commas + 1 trimmed tags; an array, on which `split` throws, makes creation fail |
| BlogController.NewBlogFields | server/src/controller/blogController.js:23-59 | a created post is published iff the flag is `true` or `"true"`; its description is `content`; its image is `/photo_blog/<file>` or `''`; its title is trimmed and its slug lower-cased; its author is the resolved user; counters are 0 |
| BlogController.UpdateKeysListKeys | server/src/controller/blogController.js:140-154 | the keys walked by the stripping loop are exactly the properties of the update object |
| BlogController.StripUndefined | server/src/controller/blogController.js:154-156 | after the loop, the update holds exactly the properties whose value is not `undefined`, with their values unchanged |
| BlogController.EditedPostFields | server/src/controller/blogController.js:131-162 | an edit always overwrites `published`, and an omitted flag becomes `false`. String tags are re-split, so `""` gives `[""]`; array tags are stored as sent; omitted tags stay. Omitted title, category and description stay. The image becomes `/uploads/<file>` only with a file |
| BlogController.EditedPostKeeps | server/src/controller/blogController.js:159-162 | an edit never changes slug, author, counters, comments, publication time or creation time, and sets `updatedAt` to the edit's instant |
| BlogController.DefinedUpdate | server/src/controller/blogController.js:131-156 | after undefined properties are removed, the update always holds the coerced `published`, holds title, category, description and tags exactly when they were sent, and holds the image exactly when a file came |
| BlogController.EditImageOutsideBlogDestination | server/src/controller/blogController.js:149-151 | an image attached by an edit is recorded under `/uploads/`, so it does not lie under the `photo_blog` directory the post-image middleware writes to |
| BlogController.IdsAscending | server/src/controller/userController.js:239 | the model reads a query without a sort as returning each matching document once, in ascending id order (an order MongoDB does not promise; see "Left out") |
| BlogController.SelectIds | server/src/controller/blogController.js:101 | the filter keeps exactly the ids whose post meets the criterion, in their original order |
| BlogController.AuthoredIds | server/src/controller/userController.js:239 | the unsorted author query returns exactly the ids of the user's posts, each once |
| BlogController.InsertNewest | server/src/controller/blogController.js:101 | inserting into a newest-first sequence adds exactly one id and keeps it newest first and free of repeats |
| BlogController.SortNewest | server/src/controller/blogController.js:101 | sorting by `createdAt` descending is a permutation whose creation times never increase |
| BlogController.MatchingIds | server/src/controller/blogController.js:101 | a filtered, sorted query returns every matching post exactly once and nothing else, newest first |
| BlogController.OwnerListingExact | server/src/controller/blogController.js:101 | a user's listing holds exactly the posts authored by that user, drafts included |
| BlogController.OwnerListingOrdered | server/src/controller/blogController.js:101 | a user's listing holds each post once, newest first |
| BlogController.PublicListingSound | server/src/controller/blogController.js:245-247 | every public entry is a stored, published post with its author projected; no post appears twice; newest first |
| BlogController.PublicListingComplete | server/src/controller/blogController.js:245-247 | every published post appears in the public listing |
| BlogController.DraftNotListed | server/src/controller/blogController.js:245 | an unpublished post never appears in the public listing |
| BlogController.PublishingEditLists | server/src/controller/blogController.js:132 | editing a post with `published` set to `"true"` makes it appear in the next public listing |
| Server.ImageUnlinksCount | server/src/controller/userController.js:240-251 | the cascade attempts at most one unlink per post, and exactly one each when every post has an image; no attempt is on an empty path; each fails iff its path fails |
| Server.ImageUnlinksSound | server/src/controller/userController.js:240-251 | every attempted path is the image of one of the user's posts |
| Server.ImageUnlinksComplete | server/src/controller/userController.js:240-251 | every post of the user that has an image has that image unlinked |
| Server.WithoutAuthorKeepsOthers | server/src/controller/userController.js:254 | the bulk delete leaves no post of the user, keeps every other post as it was, and keeps the collection well formed |
| Server.DeletionEmptiesOwnerListing | server/src/controller/userController.js:253-257 | after the cascade the user's listing is empty |
| Server.DeletionKeepsOtherListings | server/src/controller/userController.js:253-257 | after the cascade every other user's listing holds the same posts as before |
| Server.Store.Register | server/src/controller/userController.js:8-68 | an error from the check chain gives 400 and no change. Success gives 201 and adds exactly one user: the given fields, the bcrypt hash of the password instead of the plaintext, and defaults. The hash verifies the password |
| Server.Store.Login | server/src/controller/userController.js:70-119 | missing fields give 400 "Every field is required"; an unknown address gives "Incorrect email"; a hash mismatch gives "Invalid credentials"; none of these sets a cookie. A known address with a matching password always succeeds with 200; success returns the stored user, a welcome message with the first name, and a one-day session cookie for that user |
| Server.Store.Profile | server/src/controller/userController.js:129-141 | an empty address gives 400; an unknown address gives 404; otherwise the stored document is returned unchanged |
| Server.Store.EditProfile | server/src/controller/userController.js:143-194 | an empty address gives 400 and an unknown one 404, both without change; otherwise the user becomes the merged profile and is returned; posts are untouched |
| Server.Store.DeleteUser | server/src/controller/userController.js:212-264 | a missing address gives 400 and an unknown one 404, both without change. On success: one unlink is attempted for a set photo, then one for each post image, in the model's ascending-id reading of the unsorted query; the user's posts and the user are removed; nothing else changes; unlink failures do not block the deletes |
| Server.Store.UnlinkImages | server/src/controller/userController.js:239-251 | the loop over the user's posts appends one unlink attempt per set image, in order |
| Server.Store.PostBlog | server/src/controller/blogController.js:7-77 | missing fields give 400 and array tags give 500. Without a session user, a missing author gives 400 "Author information is missing" and an unknown one "Author not found". Success adds exactly the built post under the new id. With valid fields, decodable tags and a resolvable author, success happens iff the trimmed title is non-empty and the slug is free; otherwise the failed save answers 500 "Failed to save blog". Every error leaves the store unchanged |
| Server.Store.AllBlogs | server/src/controller/blogController.js:79-116 | the address comes from the query, else from the header. A missing address gives 400 and an unknown user 404. Otherwise the reply holds exactly that user's posts, drafts included, each once, newest first |
| Server.Store.EditBlog | server/src/controller/blogController.js:118-173 | an unknown id gives 404 and no change; otherwise that post, and only it, becomes the edited post, which is returned |
| Server.Store.SingleBlog | server/src/controller/blogController.js:175-191 | an unknown id gives 404 "Blog not found"; otherwise the stored post is returned |
| Server.Store.ReadBlog | server/src/controller/blogController.js:225-241 | an unknown id gives 404 "Post not found"; otherwise the stored post is returned |
| Server.Store.DeleteBlog | server/src/controller/blogController.js:193-223 | an unknown id gives 404 and no change. Otherwise exactly that post is removed, and one unlink is attempted iff its image is non-empty. The removal happens whatever the unlink does |
| Server.Store.PublicBlog | server/src/controller/blogController.js:243-254 | the reply holds exactly the published posts, each once, newest first, with authors projected to first and last name |
| Server.Store.PublicBlogRead | server/src/controller/blogController.js:256-264 | an unknown id gives 404; otherwise the post with its author projected, whether or not it is published |

## Left out

- `logout` and `media`: they only clear a cookie or read a directory listing.
- Also left out: Express routing, `server.js`, CORS, static file serving and the
  database connection.
- Catch-all 500 replies caused by store or network failures are not modelled. The
  500 replies the code itself causes are modelled:
  - array tags in `post_blog`;
  - a save that fails on the trimmed title or the slug index.
- bcrypt is a symbolic hash with an idealised compare. The salt is a parameter.
  bcrypt's 72-byte truncation of passwords is not modelled.
- jwt signing and the secret are not modelled. A token is its claim and lifetime.
- `slugify` is a library call. Its result is a parameter of `Server.Store.PostBlog`.
- ObjectIds and the clock are parameters. Fresh ids are a precondition, because the
  id generator promises fresh ids.
- An id is a number, so invalid id strings (Mongoose's cast error, a 500) cannot
  arise.
- The `!id` branch of `read_blog` is left out: the route always supplies an id.
- `req.user` is the `sessionUser` parameter of `Server.Store.PostBlog`. No middleware
  on the routes sets it; the model keeps the code's branch anyway.
- Request fields are modelled as strings or absent. For `tags` and `published`, the
  array and boolean forms the code distinguishes are modelled too. Other JSON types
  (numbers, objects) are not.
- `JsText.Lower`: only the ASCII range is lower-cased. `toLowerCase` on other letters
  is not modelled.
- `Server.Store.EditBlog`: the update validators (`runValidators`) are not modelled.
  An edit that sets the title to blank is stored; the server would answer 500.
- `BlogController.IdsAscending`: a `find` without a sort is taken to return documents in
  ascending id order. MongoDB promises no order there, and fresh ids need not increase.
- `Server.Store.DeleteUser`: the order of the post-image unlink attempts follows that
  ascending-id reading of the unsorted `Blog.find`, so it is the model's choice, not
  the server's.
- `BlogController.SortNewest`: posts with equal `createdAt` keep ascending id order.
  MongoDB leaves their order unspecified.
- File deletions are recorded as attempts in call order. Their asynchronous completion
  and the `process.cwd()` prefix are not modelled.
- What multer does with a rejected file is not modelled. Express's error handling
  decides the reply, so only the filter's verdict is modelled.
- Concurrency between requests is not modelled. Each method is one request run alone.
- The schema's `comments` and `publishedAt` paths are in the `Post` datatype, but no
  handler writes them.
