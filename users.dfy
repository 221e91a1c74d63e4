/**
 * The users router. Registration rejects a username or an email that some
 * user already has (username first); update rejects only a username that
 * another user has and does not look at emails. The password is stored as
 * its digest, recomputed on every update, and no response carries it.
 *
 * `hash_password` (a SHA-256 hex digest) is a parameter: the model only
 * relies on it being a function of the plaintext. So is the email-syntax
 * check of the body (see `ValidateUser`): a handler sees, stores and looks
 * up the normalised address it yields.
 */
module Users {
  import opened Common
  import opened Models
  import opened DocumentStore
  import opened Crud

  const InvalidUserId: string := "Invalid user ID"
  const UserNotFound: string := "User not found"
  const UsernameExists: string := "Username already exists"
  const EmailRegistered: string := "Email already registered"

  /** `find_one({"username": username})` finds a document. */
  predicate UsernameTaken(users: map<Id, User>, username: string) {
    exists k | k in users :: users[k].username == username
  }

  /** `find_one({"email": email})` finds a document. */
  predicate EmailTaken(users: map<Id, User>, email: string) {
    exists k | k in users :: users[k].email == email
  }

  /** `find_one({"username": username, "_id": {"$ne": self}})` finds a document. */
  predicate UsernameTakenByOther(users: map<Id, User>, username: string, self: Id) {
    exists k | k in users :: k != self && users[k].username == username
  }

  ghost predicate UniqueUsernames(users: map<Id, User>) {
    forall j, k :: j in users && k in users && j != k ==> users[j].username != users[k].username
  }

  ghost predicate UniqueEmails(users: map<Id, User>) {
    forall j, k :: j in users && k in users && j != k ==> users[j].email != users[k].email
  }

  /** The document `create_user` inserts: the password replaced by its digest. */
  function NewUser(body: UserCreate, hashPassword: string -> string, at: Timestamp): User {
    User(body.fullName, body.username, body.email, hashPassword(body.password), body.userType, System, at)
  }

  /** The `$set` of `update_user`: every body field, the password digested again, and `updated_at`. */
  function SetUserFields(u: User, body: UserCreate, hashPassword: string -> string, at: Timestamp): User {
    u.(fullName := body.fullName, username := body.username, email := body.email,
       password := hashPassword(body.password), userType := body.userType, updatedAt := at)
  }

  /**
   * `create_user`: 422 for a malformed email or a type other than admin,
   * faculty or student; 400 when the username is taken, checked before the
   * email; 400 when the normalised email is taken; otherwise one user is
   * inserted with the normalised email and the digest of the password.
   * Nothing is inserted on any failure, and uniqueness of usernames and of
   * emails is kept.
   */
  method CreateUser(db: Database, hashPassword: string -> string, parseEmail: string -> Option<string>,
                    body: UserCreate, at: Timestamp, newId: Id)
    returns (r: Response<UserView>)
    requires db.Valid()
    requires IsOid(newId) && newId !in db.users.docs
    modifies db.users
    ensures db.Valid()
    ensures !ValidateUser(body, parseEmail).Ok? ==> r.Unprocessable?
    ensures ValidateUser(body, parseEmail).Ok? ==>
              var email := parseEmail(body.email).value;
              && (UsernameTaken(old(db.users.docs), body.username) ==> r == BadRequest(UsernameExists))
              && (!UsernameTaken(old(db.users.docs), body.username) && EmailTaken(old(db.users.docs), email) ==>
                    r == BadRequest(EmailRegistered))
              && (r.Ok? <==> !UsernameTaken(old(db.users.docs), body.username) && !EmailTaken(old(db.users.docs), email))
    ensures r.Ok? ==> ValidateUser(body, parseEmail).Ok?
    ensures !r.Ok? ==> db.users.docs == old(db.users.docs)
    ensures r.Ok? ==>
              && db.users.docs == old(db.users.docs)[newId := NewUser(ValidateUser(body, parseEmail).value, hashPassword, at)]
              && db.users.docs[newId].email == parseEmail(body.email).value
              && db.users.docs[newId].password == hashPassword(body.password)
              && GetUser(db.users.docs, newId) == r
    ensures UniqueUsernames(old(db.users.docs)) ==> UniqueUsernames(db.users.docs)
    ensures UniqueEmails(old(db.users.docs)) ==> UniqueEmails(db.users.docs)
  {
    var valid := ValidateUser(body, parseEmail);
    if !valid.Ok? {
      return Unprocessable(valid.msg);
    }
    var user := valid.value;
    if UsernameTaken(db.users.docs, user.username) {
      return BadRequest(UsernameExists);
    }
    if EmailTaken(db.users.docs, user.email) {
      return BadRequest(EmailRegistered);
    }
    db.users.InsertOne(NewUser(user, hashPassword, at), newId);
    var created := db.users.docs[newId];
    r := Ok(UserViewOf(newId, created));
    FindAfterInsert(old(db.users.docs), newId, created, UserViewOf, InvalidUserId, UserNotFound);
  }

  /**
   * `get_all_users`: walks every stored user and adds it to the result
   * without its password. The result holds exactly the stored users.
   */
  method GetAllUsers(db: Database) returns (result: map<Id, UserView>)
    ensures result.Keys == db.users.docs.Keys
    ensures forall k :: k in result ==> result[k] == UserViewOf(k, db.users.docs[k])
  {
    var users := db.users.docs;
    var remaining := users.Keys;
    result := map[];
    while remaining != {}
      invariant remaining <= users.Keys
      invariant result.Keys == users.Keys - remaining
      invariant forall k :: k in result ==> result[k] == UserViewOf(k, users[k])
      decreases remaining
    {
      var k :| k in remaining;
      result := result[k := UserViewOf(k, users[k])];
      remaining := remaining - {k};
    }
  }

  /** `get_user`: 400 for a malformed id, 404 for a missing user, else the user without its password. */
  function GetUser(users: map<Id, User>, userId: string): (r: Response<UserView>)
    ensures !ValidId(userId) ==> r == BadRequest(InvalidUserId)
    ensures ValidId(userId) && Oid(userId) !in users ==> r == NotFound(UserNotFound)
    ensures ValidId(userId) && Oid(userId) in users ==> r == Ok(UserViewOf(Oid(userId), users[Oid(userId)]))
  {
    FindById(users, userId, UserViewOf, InvalidUserId, UserNotFound)
  }

  /**
   * `update_user`: 422 for a malformed email or a bad type, then 400 for a
   * malformed id, then 400 when another user has the username (so a conflict
   * is reported even when no user has that id), and only then 404 when
   * nothing matched. Emails are not checked against other users. A matched
   * user gets every body field with the normalised email, the digest of the
   * new password and the new `updated_at`; its submitter is kept.
   */
  method UpdateUser(db: Database, hashPassword: string -> string, parseEmail: string -> Option<string>,
                    userId: string, body: UserCreate, at: Timestamp)
    returns (r: Response<UserView>)
    requires db.Valid()
    modifies db.users
    ensures db.Valid()
    ensures !ValidateUser(body, parseEmail).Ok? ==> r.Unprocessable?
    ensures ValidateUser(body, parseEmail).Ok? && !ValidId(userId) ==> r == BadRequest(InvalidUserId)
    ensures ValidateUser(body, parseEmail).Ok? && ValidId(userId) ==>
              && (UsernameTakenByOther(old(db.users.docs), body.username, Oid(userId)) ==> r == BadRequest(UsernameExists))
              && ((!UsernameTakenByOther(old(db.users.docs), body.username, Oid(userId)) &&
                   Oid(userId) !in old(db.users.docs)) ==> r == NotFound(UserNotFound))
    ensures r.Ok? <==> && ValidateUser(body, parseEmail).Ok? && ValidId(userId) && Oid(userId) in old(db.users.docs)
                       && !UsernameTakenByOther(old(db.users.docs), body.username, Oid(userId))
    ensures !r.Ok? ==> db.users.docs == old(db.users.docs)
    ensures r.Ok? ==>
              var k := Oid(userId);
              var u' := SetUserFields(old(db.users.docs)[k], ValidateUser(body, parseEmail).value, hashPassword, at);
              && db.users.docs == old(db.users.docs)[k := u']
              && u'.email == parseEmail(body.email).value
              && r == Ok(UserViewOf(k, u'))
    ensures UniqueUsernames(old(db.users.docs)) ==> UniqueUsernames(db.users.docs)
  {
    var valid := ValidateUser(body, parseEmail);
    if !valid.Ok? {
      return Unprocessable(valid.msg);
    }
    var user := valid.value;
    if !ValidId(userId) {
      return BadRequest(InvalidUserId);
    }
    var k := Oid(userId);
    if UsernameTakenByOther(db.users.docs, user.username, k) {
      return BadRequest(UsernameExists);
    }
    var matchedCount := db.users.UpdateOne(k, (u: User) => SetUserFields(u, user, hashPassword, at));
    if matchedCount == 0 {
      return NotFound(UserNotFound);
    }
    var updated := db.users.docs[k];
    r := Ok(UserViewOf(k, updated));
  }

  /** `delete_user`: 400 for a malformed id, 404 when nothing was removed, else removes only that user. */
  method DeleteUser(db: Database, userId: string) returns (r: Response<()>)
    requires db.Valid()
    modifies db.users
    ensures db.Valid()
    ensures !ValidId(userId) ==> r == BadRequest(InvalidUserId) && db.users.docs == old(db.users.docs)
    ensures ValidId(userId) && Oid(userId) !in old(db.users.docs) ==>
              r == NotFound(UserNotFound) && db.users.docs == old(db.users.docs)
    ensures ValidId(userId) && Oid(userId) in old(db.users.docs) ==>
              r == Ok(()) && db.users.docs == old(db.users.docs) - {Oid(userId)}
  {
    r := DeleteById(db.users, userId, InvalidUserId, UserNotFound);
  }

  /** Re-submitting a user's own username never conflicts, whatever the other users are called. */
  lemma OwnUsernameNeverConflicts(users: map<Id, User>, self: Id)
    requires UniqueUsernames(users) && self in users
    ensures !UsernameTakenByOther(users, users[self].username, self)
  {
  }

  /**
   * Update keeps usernames unique only because of its exclusion check: with
   * the check passed, the updated map still has unique usernames.
   */
  lemma UpdateKeepsUsernamesUnique(users: map<Id, User>, self: Id, u': User)
    requires UniqueUsernames(users) && self in users
    requires !UsernameTakenByOther(users, u'.username, self)
    ensures UniqueUsernames(users[self := u'])
  {
  }

  /**
   * Update does not check emails, so it can give a user the email of another
   * user: whenever some string is an address, two users with distinct
   * emails, one updated to the other's, pass every check of update and end
   * up sharing it.
   */
  lemma UpdateCanDuplicateEmail(hashPassword: string -> string, parseEmail: string -> Option<string>, address: string)
    requires parseEmail(address).Some?
    ensures exists users: map<Id, User>, self: Id, body: UserCreate ::
              && UniqueUsernames(users) && UniqueEmails(users) && self in users
              && ValidateUser(body, parseEmail).Ok?
              && !UsernameTakenByOther(users, body.username, self)
              && !UniqueEmails(users[self := SetUserFields(users[self], ValidateUser(body, parseEmail).value, hashPassword, 0)])
  {
    var a := "000000000000000000000001";
    var b := "000000000000000000000002";
    var email := parseEmail(address).value;
    var users := map[a := User("Ann", "ann", email, "", "student", System, 0),
                     b := User("Bob", "bob", email + "x", "", "student", System, 0)];
    var body := UserCreate("Bob", "bob", address, "pw", "student");
    var valid := ValidateUser(body, parseEmail);
    assert valid.Ok? && valid.value.email == email;
    var users' := users[b := SetUserFields(users[b], valid.value, hashPassword, 0)];
    assert users'[a].email == users'[b].email && a != b;
    assert |users[a].email| != |users[b].email|;
    assert !UsernameTakenByOther(users, body.username, b);
  }
}
