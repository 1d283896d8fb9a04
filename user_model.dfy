/** The User schema: the stored user document, its defaults, its required fields and the
    uniqueness of e-mail across the `users` collection. */
module UserModel {
  import opened Wrappers
  import opened Credentials

  type UserId = nat

  /** A user document. `createdAt` and `updatedAt` are the schema's timestamps. */
  datatype User = User(
    id: UserId,
    firstName: string,
    lastName: string,
    email: string,
    password: PasswordHash,
    bio: string,
    qualification: string,
    profilePhoto: string,
    instagram: string,
    linkedin: string,
    facebook: string,
    github: string,
    createdAt: int,
    updatedAt: int)

  /** The document `User.create` stores from the four registration fields: every
      optional text field takes its schema default `""`, and both timestamps are `now`. */
  function NewUser(id: UserId, firstName: string, lastName: string, email: string,
                   password: PasswordHash, now: int): (u: User)
    ensures u.id == id && u.firstName == firstName && u.lastName == lastName
    ensures u.email == email && u.password == password
    ensures u.bio == u.qualification == u.profilePhoto == ""
    ensures u.instagram == u.linkedin == u.facebook == u.github == ""
    ensures u.createdAt == u.updatedAt == now
    ensures HasRequired(u) <==> firstName != "" && lastName != "" && email != ""
  {
    User(id, firstName, lastName, email, password, "", "", "", "", "", "", "", now, now)
  }

  /** Mongoose's `required` on a string path: present and not the empty string. The
      password is required too; its type makes it always present. */
  predicate HasRequired(u: User) {
    u.firstName != "" && u.lastName != "" && u.email != ""
  }

  /** The unique index on `email`: no two documents share an address (exact comparison). */
  predicate EmailsUnique(users: map<UserId, User>) {
    forall a, b :: a in users && b in users && users[a].email == users[b].email ==> a == b
  }

  /** The `users` collection as the schema constrains it. */
  predicate UsersWellFormed(users: map<UserId, User>) {
    && (forall id :: id in users ==> users[id].id == id && HasRequired(users[id]))
    && EmailsUnique(users)
  }

  /** `User.findOne({ email })`: the document with exactly this address, if any. */
  function FindByEmail(users: map<UserId, User>, email: string): (r: Option<UserId>)
    requires EmailsUnique(users)
    ensures r.Some? ==> r.value in users && users[r.value].email == email
    ensures r.None? ==> forall id :: id in users ==> users[id].email != email
  {
    if exists id :: id in users && users[id].email == email then
      var id :| id in users && users[id].email == email; Some(id)
    else None
  }

  /** Adding a user whose address is not yet taken keeps the collection well formed. */
  lemma InsertKeepsWellFormed(users: map<UserId, User>, u: User)
    requires UsersWellFormed(users) && HasRequired(u) && u.id !in users
    requires forall id :: id in users ==> users[id].email != u.email
    ensures UsersWellFormed(users[u.id := u])
  {
  }

  /** Removing a user keeps the collection well formed. */
  lemma RemoveKeepsWellFormed(users: map<UserId, User>, id: UserId)
    requires UsersWellFormed(users)
    ensures UsersWellFormed(users - {id})
  {
  }
}
