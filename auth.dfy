/**
 * The credential store of auth.py. It works on the same `users` table as
 * database.py, through the shared connection, and stores for each username
 * the digest of the password. The digest (SHA-256, hex encoded) is the
 * function parameter `digest`; being a function, it gives equal digests for
 * equal passwords.
 */
module Auth {
  import opened Wrappers
  import opened Database

  /** `hash_password`. */
  function HashPassword(digest: string -> string, password: string): string {
    digest(password)
  }

  function Credentials(username: string, hash: string): User -> bool {
    (u: User) => u.username == username && u.password == hash
  }

  /** SELECT * FROM users WHERE username=? AND password=?, then `is not None`. */
  function Verified(t: Tables, digest: string -> string, username: string, password: string): bool {
    Filter(t.users, Credentials(username, HashPassword(digest, password))) != []
  }

  /** SELECT * FROM users WHERE username=?, then `is not None`. */
  function Exists(t: Tables, username: string): bool {
    Filter(t.users, Named(username)) != []
  }

  /** The digest stored for a username, if the user exists. */
  function StoredDigest(t: Tables, username: string): Option<string> {
    match SelectUser(t, username)
    case Some(u) => Some(u.password)
    case None => None
  }

  /** `user_exists` holds iff a row carries the name. */
  lemma ExistsIffRow(t: Tables, username: string)
    ensures Exists(t, username) <==> exists u :: u in t.users && u.username == username
  {
    var f := Filter(t.users, Named(username));
    if f != [] {
      assert f[0] in f;
    }
    forall u | u in t.users && u.username == username ensures u in f {
    }
  }

  /** `verify_user(u, p)` holds iff the table maps `u` to the digest of `p`. */
  lemma VerifiedIffStored(t: Tables, digest: string -> string, username: string, password: string)
    requires TablesValid(t)
    ensures Verified(t, digest, username, password) <==> StoredDigest(t, username) == Some(digest(password))
  {
    var f := Filter(t.users, Credentials(username, digest(password)));
    SelectUserFinds(t, username);
    if f != [] {
      assert f[0] in f;
    }
    if StoredDigest(t, username) == Some(digest(password)) {
      assert SelectUser(t, username).value in f;
    }
  }

  /**
   * `add_user` on a free username: the row is inserted, after which the user
   * exists and verifies with the password it was added with; every other
   * username keeps its digest. On a taken username the insert raises.
   */
  lemma AddThenVerify(t: Tables, digest: string -> string, username: string, password: string, now: int, e: Exec<nat>)
    requires TablesValid(t) && e == InsertUserRow(t, username, HashPassword(digest, password), now)
    ensures e.Done? <==> !Exists(t, username)
    ensures e.Done? ==> Exists(e.after, username) && Verified(e.after, digest, username, password)
    ensures e.Done? ==> forall other :: other != username ==> StoredDigest(e.after, other) == StoredDigest(t, other)
  {
    InsertUserEffect(t, username, HashPassword(digest, password), now, e);
    if e.Done? {
      VerifiedIffStored(e.after, digest, username, password);
    }
  }

  /**
   * `change_password`: the user, if present, now verifies exactly with the
   * passwords whose digest equals the new one's; an absent user stays absent;
   * every other username keeps its digest.
   */
  lemma ChangePasswordEffect(t: Tables, digest: string -> string, username: string, newPassword: string, e: Exec<nat>)
    requires TablesValid(t) && e == UpdatePasswordRows(t, username, HashPassword(digest, newPassword))
    ensures Exists(e.after, username) == Exists(t, username)
    ensures forall p :: Verified(e.after, digest, username, p) <==> Exists(t, username) && digest(p) == digest(newPassword)
    ensures forall other :: other != username ==> StoredDigest(e.after, other) == StoredDigest(t, other)
  {
    UpdatePasswordEffect(t, username, HashPassword(digest, newPassword), e);
    forall p ensures Verified(e.after, digest, username, p) <==> Exists(t, username) && digest(p) == digest(newPassword) {
      VerifiedIffStored(e.after, digest, username, p);
    }
  }

  /** `delete_user`: the user no longer exists and every other username keeps its digest. */
  lemma DeleteUserForgets(t: Tables, digest: string -> string, username: string, e: Exec<nat>)
    requires TablesValid(t) && e == DeleteUserRows(t, username)
    ensures !Exists(e.after, username)
    ensures forall p :: !Verified(e.after, digest, username, p)
    ensures forall other :: other != username ==> StoredDigest(e.after, other) == StoredDigest(t, other)
  {
    Database.DeleteUserEffect(t, username, e);
    forall p ensures !Verified(e.after, digest, username, p) {
      VerifiedIffStored(e.after, digest, username, p);
    }
  }

  /** `verify_user`. */
  method VerifyUser(db: Connection, digest: string -> string, username: string, password: string) returns (ok: bool)
    requires db.Valid()
    ensures ok <==> StoredDigest(db.tables, username) == Some(HashPassword(digest, password))
  {
    VerifiedIffStored(db.tables, digest, username, password);
    ok := Verified(db.tables, digest, username, password);
  }

  /** `user_exists`. */
  method UserExists(db: Connection, username: string) returns (b: bool)
    ensures b <==> exists u :: u in db.tables.users && u.username == username
  {
    ExistsIffRow(db.tables, username);
    b := Exists(db.tables, username);
  }

  /** `add_user`: true and committed for a free username; false, with nothing changed, for a taken one. */
  method AddUser(db: Connection, digest: string -> string, username: string, password: string, now: int) returns (ok: bool)
    requires db.Valid()
    modifies db
    ensures db.Valid()
    ensures ok <==> !Exists(old(db.tables), username)
    ensures ok ==> db.tables == InsertUserRow(old(db.tables), username, HashPassword(digest, password), now).after
    ensures ok ==> Exists(db.tables, username) && Verified(db.tables, digest, username, password)
    ensures !ok ==> db.tables == old(db.tables)
  {
    ghost var before := db.tables;
    var e := InsertUserRow(db.tables, username, HashPassword(digest, password), now);
    AddThenVerify(before, digest, username, password, now, e);
    var r := db.Run(e);
    ok := r.Ok?;
  }

  /** `change_password`: the UPDATE cannot fail here, so the answer is always true. */
  method ChangePassword(db: Connection, digest: string -> string, username: string, newPassword: string) returns (ok: bool)
    requires db.Valid()
    modifies db
    ensures db.Valid()
    ensures ok
    ensures db.tables == UpdatePasswordRows(old(db.tables), username, HashPassword(digest, newPassword)).after
  {
    var r := db.Run(UpdatePasswordRows(db.tables, username, HashPassword(digest, newPassword)));
    ok := r.Ok?;
  }

  /** `delete_user`: always true, whether or not the user existed. */
  method DeleteUser(db: Connection, username: string) returns (ok: bool)
    requires db.Valid()
    modifies db
    ensures db.Valid()
    ensures ok
    ensures db.tables == DeleteUserRows(old(db.tables), username).after
  {
    var r := db.Run(DeleteUserRows(db.tables, username));
    ok := r.Ok?;
  }
}
