/** The decision logic of the user handlers that does not touch the store: the
    registration validation chain and the profile-edit merge. */
module UserController {
  import opened Wrappers
  import JsText
  import EmailFormat
  import opened UserModel
  import Upload

  const MissingFieldsMessage := "every fields are required"
  const InvalidEmailMessage := "Invalid email address"
  const ShortPasswordMessage := "Password must be at least 6 characters long"
  const DuplicateMessage := "User already exists. Please log in."

  const MinPasswordLength: nat := 6

  /** Some stored user has exactly this address. */
  predicate EmailTaken(users: map<UserId, User>, email: string) {
    exists id :: id in users && users[id].email == email
  }

  /** The registration checks, in source order; the message of the first that fails. */
  function RegisterError(firstName: Option<string>, lastName: Option<string>,
                         email: Option<string>, password: Option<string>,
                         users: map<UserId, User>): (err: Option<string>)
    ensures err.None? <==>
              && JsText.Truthy(firstName) && JsText.Truthy(lastName)
              && JsText.Truthy(email) && JsText.Truthy(password)
              && EmailFormat.IsValidEmail(email.value)
              && JsText.Utf16Length(password.value) >= MinPasswordLength
              && !EmailTaken(users, email.value)
  {
    if !JsText.Truthy(firstName) || !JsText.Truthy(lastName)
       || !JsText.Truthy(email) || !JsText.Truthy(password) then Some(MissingFieldsMessage)
    else if !EmailFormat.IsValidEmail(email.value) then Some(InvalidEmailMessage)
    else if JsText.Utf16Length(password.value) < MinPasswordLength then Some(ShortPasswordMessage)
    else if EmailTaken(users, email.value) then Some(DuplicateMessage)
    else None
  }

  /** Which check rejects: a missing field first, whatever else is wrong; then the
      address format; then the password length; the duplicate check last. */
  lemma RegisterCheckOrder(firstName: Option<string>, lastName: Option<string>,
                           email: Option<string>, password: Option<string>,
                           users: map<UserId, User>)
    ensures var err := RegisterError(firstName, lastName, email, password, users);
      var present := JsText.Truthy(firstName) && JsText.Truthy(lastName)
                     && JsText.Truthy(email) && JsText.Truthy(password);
      && (!present <==> err == Some(MissingFieldsMessage))
      && (err == Some(InvalidEmailMessage) <==> present && !EmailFormat.MatchesEmailPattern(email.value))
      && (err == Some(ShortPasswordMessage) <==>
            present && EmailFormat.MatchesEmailPattern(email.value)
            && JsText.Utf16Length(password.value) < MinPasswordLength)
      && (err == Some(DuplicateMessage) <==>
            present && EmailFormat.MatchesEmailPattern(email.value)
            && JsText.Utf16Length(password.value) >= MinPasswordLength
            && EmailTaken(users, email.value))
  {
    if JsText.Truthy(email) {
      EmailFormat.ValidatorMatchesPattern(email.value);
    }
  }

  /** An accepted registration carries an address matching the pattern, with one `@`,
      a password of at least six UTF-16 units, and an address no stored user has. */
  lemma RegisterAccepts(firstName: Option<string>, lastName: Option<string>,
                        email: Option<string>, password: Option<string>,
                        users: map<UserId, User>)
    requires RegisterError(firstName, lastName, email, password, users).None?
    ensures EmailFormat.MatchesEmailPattern(email.value)
    ensures JsText.Count(email.value, '@') == 1
    ensures JsText.Utf16Length(password.value) >= MinPasswordLength && |password.value| >= 3
    ensures forall id :: id in users ==> users[id].email != email.value
  {
    EmailFormat.ValidatorMatchesPattern(email.value);
    EmailFormat.ValidEmailHasOneAt(email.value);
  }

  /** The duplicate check compares addresses exactly: with only `ADA@X.com` stored,
      registering `ada@x.com` passes every check. */
  lemma CaseVariantIsNotDuplicate(users: map<UserId, User>)
    requires forall id :: id in users ==> users[id].email == "ADA@X.com"
    ensures RegisterError(Some("Ada"), Some("Lovelace"), Some("ada@x.com"), Some("secret1"), users) == None
  {
    EmailFormat.LowerCaseAddressValid();
    assert "ada@x.com"[0] != "ADA@X.com"[0];
    FreshAddressAccepted(users, "ada@x.com");
  }

  /** Ada Lovelace registering with a valid address nobody holds, and a seven-character
      password, passes every check. */
  lemma FreshAddressAccepted(users: map<UserId, User>, e: string)
    requires EmailFormat.IsValidEmail(e)
    requires forall id :: id in users ==> users[id].email != e
    ensures RegisterError(Some("Ada"), Some("Lovelace"), Some(e), Some("secret1"), users) == None
  {
    assert |"secret1"| == 7;
  }

  /** The text fields `editProfile` reads from the request body. */
  datatype ProfileForm = ProfileForm(
    firstName: Option<string>,
    lastName: Option<string>,
    bio: Option<string>,
    qualification: Option<string>,
    linkedin: Option<string>,
    github: Option<string>,
    instagram: Option<string>,
    facebook: Option<string>)

  /** Where an uploaded profile photo is served from. */
  function ProfilePhotoPath(filename: string): string {
    "/photo_user/" + filename
  }

  /** Unlike post images, a profile photo is recorded under the directory the upload
      middleware wrote it to, so the stored path names the stored file. */
  lemma ProfilePhotoPathNamesStoredFile(filename: string)
    ensures ProfilePhotoPath(filename) == "/" + Upload.ProfileDestination + "/" + filename
    ensures ProfilePhotoPath(filename)[|ProfilePhotoPath(filename)| - |filename|..] == filename
  {
  }

  /** The loaded document after `editProfile` has assigned to it: the photo path when a
      file came with the request, each of the eight text fields `incoming || current`;
      `save` then moves `updatedAt` to `now` only if some field really changed. */
  function EditedProfile(u: User, form: ProfileForm, photo: Option<string>, now: int): User {
    var v := u.(
      profilePhoto := if photo.Some? then ProfilePhotoPath(photo.value) else u.profilePhoto,
      firstName := JsText.OrElse(form.firstName, u.firstName),
      lastName := JsText.OrElse(form.lastName, u.lastName),
      bio := JsText.OrElse(form.bio, u.bio),
      qualification := JsText.OrElse(form.qualification, u.qualification),
      linkedin := JsText.OrElse(form.linkedin, u.linkedin),
      github := JsText.OrElse(form.github, u.github),
      instagram := JsText.OrElse(form.instagram, u.instagram),
      facebook := JsText.OrElse(form.facebook, u.facebook));
    if v == u then u else v.(updatedAt := now)
  }

  /** A field changes only to a non-empty incoming value: an empty or missing value
      never clears it. */
  predicate OverwrittenIffGiven(incoming: Option<string>, before: string, after: string) {
    && (JsText.Truthy(incoming) ==> after == incoming.value)
    && (!JsText.Truthy(incoming) ==> after == before)
  }

  /** What an edit does to a profile: the eight text fields follow `OverwrittenIffGiven`,
      the photo changes iff a file came, the identity, address, password hash and
      creation time never change, and a document that changed at all has `updatedAt`
      moved to `now`. */
  lemma EditedProfileFields(u: User, form: ProfileForm, photo: Option<string>, now: int)
    ensures var r := EditedProfile(u, form, photo, now);
      && OverwrittenIffGiven(form.firstName, u.firstName, r.firstName)
      && OverwrittenIffGiven(form.lastName, u.lastName, r.lastName)
      && OverwrittenIffGiven(form.bio, u.bio, r.bio)
      && OverwrittenIffGiven(form.qualification, u.qualification, r.qualification)
      && OverwrittenIffGiven(form.linkedin, u.linkedin, r.linkedin)
      && OverwrittenIffGiven(form.github, u.github, r.github)
      && OverwrittenIffGiven(form.instagram, u.instagram, r.instagram)
      && OverwrittenIffGiven(form.facebook, u.facebook, r.facebook)
      && r.profilePhoto == (if photo.Some? then "/photo_user/" + photo.value else u.profilePhoto)
      && r.id == u.id && r.email == u.email && r.password == u.password
      && r.createdAt == u.createdAt
      && (r == u || r.updatedAt == now)
      && (HasRequired(u) ==> HasRequired(r))
  {
  }

  /** Sending the same edit twice changes nothing the second time, not even `updatedAt`. */
  lemma EditedProfileIdempotent(u: User, form: ProfileForm, photo: Option<string>, t1: int, t2: int)
    ensures var once := EditedProfile(u, form, photo, t1);
      EditedProfile(once, form, photo, t2) == once
  {
    var once := EditedProfile(u, form, photo, t1);
    assert JsText.OrElse(form.firstName, once.firstName) == once.firstName;
  }

  /** An edit with every field empty or missing and no file leaves the document as it was. */
  lemma EmptyEditIsNoOp(u: User, form: ProfileForm, now: int)
    requires !JsText.Truthy(form.firstName) && !JsText.Truthy(form.lastName)
    requires !JsText.Truthy(form.bio) && !JsText.Truthy(form.qualification)
    requires !JsText.Truthy(form.linkedin) && !JsText.Truthy(form.github)
    requires !JsText.Truthy(form.instagram) && !JsText.Truthy(form.facebook)
    ensures EditedProfile(u, form, None, now) == u
  {
  }
}
