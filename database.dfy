/**
 * The SQLite store of database.py: a `users` table with a UNIQUE username, a
 * `stories` table, both with AUTOINCREMENT ids, and the per-operation cursor
 * that commits on success and rolls back when a statement raises.
 *
 * Each SQL statement is a function from the tables before it to an `Exec`:
 * the value the cursor reports (a row count or the last row id) together with
 * the tables after it, or the error it raised. `Connection` holds the shared
 * tables and runs statements the way `get_cursor` does.
 */
module Database {
  import opened Wrappers

  /** A row of `users`: id, username, password digest, created_at. */
  datatype User = User(id: nat, username: string, password: string, createdAt: int)

  /** A row of `stories`: id, user_id, title, content, genre, created_at. */
  datatype Story = Story(id: nat, userId: int, title: string, content: string, genre: string, createdAt: int)

  /**
   * Both tables, rows in rowid order, with the largest id each table has ever
   * handed out (SQLite keeps these in `sqlite_sequence` for AUTOINCREMENT).
   */
  datatype Tables = Tables(users: seq<User>, stories: seq<Story>, lastUserId: nat, lastStoryId: nat)

  /** The only error a statement here can raise: a UNIQUE constraint violation. */
  datatype SqlError = IntegrityError

  /** The outcome of one statement. */
  datatype Exec<T> = Done(value: T, after: Tables) | Raised(error: SqlError)

  // ---------------------------------------------------------------- rows as sequences

  /** The rows a WHERE clause selects, in table order. */
  function Filter<T(!new)>(s: seq<T>, keep: T -> bool): (r: seq<T>)
    ensures |r| <= |s|
    ensures forall x :: x in r <==> x in s && keep(x)
  {
    if s == [] then [] else (if keep(s[0]) then [s[0]] else []) + Filter(s[1..], keep)
  }

  /** `fetchone()`: the first selected row, if any. */
  function First<T>(s: seq<T>): Option<T> {
    if s == [] then None else Some(s[0])
  }

  /** UPDATE … SET … WHERE: rows satisfying `where` are rewritten by `change`, the others kept. */
  function Update<T>(s: seq<T>, where: T -> bool, change: T -> T): (r: seq<T>)
    ensures |r| == |s|
    ensures forall i :: 0 <= i < |s| ==> r[i] == if where(s[i]) then change(s[i]) else s[i]
  {
    if s == [] then [] else [if where(s[0]) then change(s[0]) else s[0]] + Update(s[1..], where, change)
  }

  function Not<T>(p: T -> bool): T -> bool {
    x => !p(x)
  }

  /** Every earlier row stands in relation `rel` to every later one. */
  ghost predicate Pairwise<T>(s: seq<T>, rel: (T, T) -> bool) {
    forall i, j :: 0 <= i < j < |s| ==> rel(s[i], s[j])
  }

  lemma {:induction false} FilterAppend<T(!new)>(s: seq<T>, x: T, keep: T -> bool)
    ensures Filter(s + [x], keep) == Filter(s, keep) + (if keep(x) then [x] else [])
    decreases |s|
  {
    if s != [] {
      assert (s + [x])[1..] == s[1..] + [x];
      FilterAppend(s[1..], x, keep);
    }
  }

  lemma PairwiseTail<T>(s: seq<T>, rel: (T, T) -> bool)
    requires Pairwise(s, rel) && s != []
    ensures Pairwise(s[1..], rel)
  {
    forall i, j | 0 <= i < j < |s[1..]| ensures rel(s[1..][i], s[1..][j]) {
      assert s[1..][i] == s[i + 1] && s[1..][j] == s[j + 1];
    }
  }

  lemma {:induction false} FilterNone<T(!new)>(s: seq<T>, keep: T -> bool)
    requires forall x :: x in s ==> !keep(x)
    ensures Filter(s, keep) == []
    decreases |s|
  {
    if s != [] {
      assert s[0] in s;
      FilterNone(s[1..], keep);
    }
  }

  /** When no two selected rows can stand in relation `rel`, a selection from a `rel`-ordered table has at most one row. */
  lemma {:induction false} FilterAtMostOne<T(!new)>(s: seq<T>, keep: T -> bool, rel: (T, T) -> bool)
    requires Pairwise(s, rel)
    requires forall a, b :: keep(a) && keep(b) ==> !rel(a, b)
    ensures |Filter(s, keep)| <= 1
    decreases |s|
  {
    if s != [] {
      PairwiseTail(s, rel);
      FilterAtMostOne(s[1..], keep, rel);
      if keep(s[0]) {
        forall x | x in s[1..] ensures !keep(x) {
          var k :| 0 <= k < |s[1..]| && s[1..][k] == x;
          assert rel(s[0], s[k + 1]);
        }
        FilterNone(s[1..], keep);
      }
    }
  }

  /** Selecting keeps the relative order of rows, so any pairwise relation survives. */
  lemma {:induction false} FilterPairwise<T(!new)>(s: seq<T>, keep: T -> bool, rel: (T, T) -> bool)
    requires Pairwise(s, rel)
    ensures Pairwise(Filter(s, keep), rel)
    decreases |s|
  {
    if s != [] {
      var tail := Filter(s[1..], keep);
      PairwiseTail(s, rel);
      FilterPairwise(s[1..], keep, rel);
      if keep(s[0]) {
        var r := [s[0]] + tail;
        forall i, j | 0 <= i < j < |r| ensures rel(r[i], r[j]) {
          if i == 0 {
            assert r[j] in s[1..];
            var k :| 0 <= k < |s[1..]| && s[1..][k] == r[j];
            assert rel(s[0], s[k + 1]);
          } else {
            assert r[i] == tail[i - 1] && r[j] == tail[j - 1];
          }
        }
      }
    }
  }

  /** A selection commutes with an update that does not change what the selection tests. */
  lemma {:induction false} FilterUpdate<T(!new)>(s: seq<T>, keep: T -> bool, where: T -> bool, change: T -> T)
    requires forall x :: keep(change(x)) == keep(x)
    ensures Filter(Update(s, where, change), keep) == Update(Filter(s, keep), where, change)
    decreases |s|
  {
    if s != [] {
      FilterUpdate(s[1..], keep, where, change);
      var u := Update(s, where, change);
      assert u[0] == (if where(s[0]) then change(s[0]) else s[0]);
      assert u[1..] == Update(s[1..], where, change);
    }
  }

  // ---------------------------------------------------------------- the schema

  /** Ids grow along the table and usernames differ (the UNIQUE constraint). */
  predicate UserBefore(a: User, b: User) {
    a.id < b.id && a.username != b.username
  }

  predicate StoryBefore(a: Story, b: Story) {
    a.id < b.id
  }

  /** What the schema and AUTOINCREMENT guarantee of the stored rows. */
  ghost predicate TablesValid(t: Tables) {
    && (forall u :: u in t.users ==> 0 < u.id <= t.lastUserId)
    && Pairwise(t.users, UserBefore)
    && (forall s :: s in t.stories ==> 0 < s.id <= t.lastStoryId)
    && Pairwise(t.stories, StoryBefore)
  }

  /** `init_db` on a fresh database file: both tables exist and are empty. */
  function Empty(): (t: Tables)
    ensures TablesValid(t)
  {
    Tables([], [], 0, 0)
  }

  function Named(username: string): User -> bool {
    (u: User) => u.username == username
  }

  function HasId(id: int): Story -> bool {
    (s: Story) => s.id == id
  }

  function OwnedBy(userId: int): Story -> bool {
    (s: Story) => s.userId == userId
  }

  function WithPassword(password: string): User -> User {
    (u: User) => u.(password := password)
  }

  function Revised(title: string, content: string, genre: string): Story -> Story {
    (s: Story) => s.(title := title, content := content, genre := genre)
  }

  /** At most one user row carries a given username. */
  lemma UserNameUnique(t: Tables, username: string)
    requires TablesValid(t)
    ensures |Filter(t.users, Named(username))| <= 1
  {
    FilterAtMostOne(t.users, Named(username), UserBefore);
  }

  /** At most one story row carries a given id. */
  lemma StoryIdUnique(t: Tables, id: int)
    requires TablesValid(t)
    ensures |Filter(t.stories, HasId(id))| <= 1
  {
    FilterAtMostOne(t.stories, HasId(id), StoryBefore);
  }

  // ---------------------------------------------------------------- statements on users

  /** SELECT * FROM users WHERE username = ?, then fetchone(). */
  function SelectUser(t: Tables, username: string): Option<User> {
    First(Filter(t.users, Named(username)))
  }

  /** INSERT INTO users (username, password): raises on a duplicate username, else appends a row with the next id. */
  function InsertUserRow(t: Tables, username: string, password: string, now: int): (e: Exec<nat>)
    ensures TablesValid(t) && e.Done? ==> TablesValid(e.after)
  {
    if Filter(t.users, Named(username)) != [] then
      Raised(IntegrityError)
    else
      var id := t.lastUserId + 1;
      var users := t.users + [User(id, username, password, now)];
      assert TablesValid(t) ==> TablesValid(t.(users := users, lastUserId := id)) by {
        if TablesValid(t) { AppendUserValid(t, User(id, username, password, now)); }
      }
      Done(id, t.(users := users, lastUserId := id))
  }

  lemma AppendUserValid(t: Tables, row: User)
    requires TablesValid(t) && row.id == t.lastUserId + 1 && Filter(t.users, Named(row.username)) == []
    ensures TablesValid(t.(users := t.users + [row], lastUserId := row.id))
  {
    var users := t.users + [row];
    forall i, j | 0 <= i < j < |users| ensures UserBefore(users[i], users[j]) {
      assert users[i] == t.users[i] && users[i] in t.users;
      if j == |t.users| {
        assert users[i] !in Filter(t.users, Named(row.username));
      } else {
        assert users[j] == t.users[j];
      }
    }
  }

  /** UPDATE users SET password = ? WHERE username = ?; the value is the row count. */
  function UpdatePasswordRows(t: Tables, username: string, password: string): (e: Exec<nat>)
    ensures e.Done?
    ensures TablesValid(t) ==> TablesValid(e.after)
  {
    var users := Update(t.users, Named(username), WithPassword(password));
    assert TablesValid(t) ==> TablesValid(t.(users := users)) by {
      if TablesValid(t) { UpdatePasswordValid(t, username, password); }
    }
    Done(|Filter(t.users, Named(username))|, t.(users := users))
  }

  lemma UpdatePasswordValid(t: Tables, username: string, password: string)
    requires TablesValid(t)
    ensures TablesValid(t.(users := Update(t.users, Named(username), WithPassword(password))))
  {
    var users := Update(t.users, Named(username), WithPassword(password));
    forall u | u in users ensures 0 < u.id <= t.lastUserId {
      var i :| 0 <= i < |users| && users[i] == u;
      assert t.users[i] in t.users;
    }
    forall i, j | 0 <= i < j < |users| ensures UserBefore(users[i], users[j]) {
      assert UserBefore(t.users[i], t.users[j]);
    }
  }

  /** DELETE FROM users WHERE username = ?; the value is the row count. Stories are not touched. */
  function DeleteUserRows(t: Tables, username: string): (e: Exec<nat>)
    ensures e.Done?
    ensures TablesValid(t) ==> TablesValid(e.after)
  {
    var users := Filter(t.users, Not(Named(username)));
    assert TablesValid(t) ==> Pairwise(users, UserBefore) by {
      if TablesValid(t) { FilterPairwise(t.users, Not(Named(username)), UserBefore); }
    }
    Done(|Filter(t.users, Named(username))|, t.(users := users))
  }

  // ---------------------------------------------------------------- statements on stories

  /** SELECT * FROM stories WHERE id = ?, then fetchone(). */
  function SelectStory(t: Tables, id: int): Option<Story> {
    First(Filter(t.stories, HasId(id)))
  }

  /** INSERT INTO stories: appends a row with the next id; the value is `lastrowid`. */
  function InsertStoryRow(t: Tables, userId: int, title: string, content: string, genre: string, now: int): (e: Exec<nat>)
    ensures e.Done?
    ensures TablesValid(t) ==> TablesValid(e.after)
  {
    var id := t.lastStoryId + 1;
    var stories := t.stories + [Story(id, userId, title, content, genre, now)];
    assert TablesValid(t) ==> TablesValid(t.(stories := stories, lastStoryId := id)) by {
      if TablesValid(t) { AppendStoryValid(t, Story(id, userId, title, content, genre, now)); }
    }
    Done(id, t.(stories := stories, lastStoryId := id))
  }

  lemma AppendStoryValid(t: Tables, row: Story)
    requires TablesValid(t) && row.id == t.lastStoryId + 1
    ensures TablesValid(t.(stories := t.stories + [row], lastStoryId := row.id))
  {
    var stories := t.stories + [row];
    forall i, j | 0 <= i < j < |stories| ensures StoryBefore(stories[i], stories[j]) {
      assert stories[i] == t.stories[i] && stories[i] in t.stories;
      if j < |t.stories| {
        assert stories[j] == t.stories[j];
      }
    }
  }

  /** UPDATE stories SET title, content, genre WHERE id = ?; the value is the row count. */
  function UpdateStoryRows(t: Tables, id: int, title: string, content: string, genre: string): (e: Exec<nat>)
    ensures e.Done?
    ensures TablesValid(t) ==> TablesValid(e.after)
  {
    var stories := Update(t.stories, HasId(id), Revised(title, content, genre));
    assert TablesValid(t) ==> TablesValid(t.(stories := stories)) by {
      if TablesValid(t) { UpdateStoryValid(t, id, title, content, genre); }
    }
    Done(|Filter(t.stories, HasId(id))|, t.(stories := stories))
  }

  lemma UpdateStoryValid(t: Tables, id: int, title: string, content: string, genre: string)
    requires TablesValid(t)
    ensures TablesValid(t.(stories := Update(t.stories, HasId(id), Revised(title, content, genre))))
  {
    var stories := Update(t.stories, HasId(id), Revised(title, content, genre));
    forall s | s in stories ensures 0 < s.id <= t.lastStoryId {
      var i :| 0 <= i < |stories| && stories[i] == s;
      assert t.stories[i] in t.stories;
    }
    forall i, j | 0 <= i < j < |stories| ensures StoryBefore(stories[i], stories[j]) {
      assert StoryBefore(t.stories[i], t.stories[j]);
    }
  }

  /** DELETE FROM stories WHERE id = ?; the value is the row count. */
  function DeleteStoryRows(t: Tables, id: int): (e: Exec<nat>)
    ensures e.Done?
    ensures TablesValid(t) ==> TablesValid(e.after)
  {
    var stories := Filter(t.stories, Not(HasId(id)));
    assert TablesValid(t) ==> Pairwise(stories, StoryBefore) by {
      if TablesValid(t) { FilterPairwise(t.stories, Not(HasId(id)), StoryBefore); }
    }
    Done(|Filter(t.stories, HasId(id))|, t.(stories := stories))
  }

  predicate NotOlder(a: Story, b: Story) {
    a.createdAt >= b.createdAt
  }

  /** Places `s` before the first row that is not newer than it. */
  function InsertNewest(s: Story, sorted: seq<Story>): (r: seq<Story>)
    ensures multiset(r) == multiset(sorted) + multiset{s}
  {
    if sorted == [] || sorted[0].createdAt <= s.createdAt then [s] + sorted
    else
      assert sorted == [sorted[0]] + sorted[1..];
      [sorted[0]] + InsertNewest(s, sorted[1..])
  }

  /** ORDER BY created_at DESC; rows with equal timestamps stay in rowid order. */
  function NewestFirst(rows: seq<Story>): (r: seq<Story>)
    ensures multiset(r) == multiset(rows)
  {
    if rows == [] then []
    else
      assert rows == [rows[0]] + rows[1..];
      InsertNewest(rows[0], NewestFirst(rows[1..]))
  }

  /** SELECT * FROM stories WHERE user_id = ? ORDER BY created_at DESC, then fetchall(). */
  function SelectUserStories(t: Tables, userId: int): seq<Story> {
    NewestFirst(Filter(t.stories, OwnedBy(userId)))
  }

  lemma {:induction false} InsertNewestSorted(s: Story, sorted: seq<Story>)
    requires Pairwise(sorted, NotOlder)
    ensures Pairwise(InsertNewest(s, sorted), NotOlder)
    decreases |sorted|
  {
    var r := InsertNewest(s, sorted);
    if sorted == [] || sorted[0].createdAt <= s.createdAt {
      forall i, j | 0 <= i < j < |r| ensures NotOlder(r[i], r[j]) {
        if i == 0 {
          assert r[j] == sorted[j - 1];
          if j > 1 { assert NotOlder(sorted[0], sorted[j - 1]); }
        } else {
          assert r[i] == sorted[i - 1] && r[j] == sorted[j - 1];
        }
      }
    } else {
      var rest := sorted[1..];
      assert Pairwise(rest, NotOlder) by {
        forall i, j | 0 <= i < j < |rest| ensures NotOlder(rest[i], rest[j]) {
          assert rest[i] == sorted[i + 1] && rest[j] == sorted[j + 1];
        }
      }
      InsertNewestSorted(s, rest);
      var tail := InsertNewest(s, rest);
      forall i, j | 0 <= i < j < |r| ensures NotOlder(r[i], r[j]) {
        if i == 0 {
          var x := tail[j - 1];
          assert x in multiset(tail);
          if x != s {
            assert x in rest;
            var k :| 0 <= k < |rest| && rest[k] == x;
            assert NotOlder(sorted[0], sorted[k + 1]);
          }
        } else {
          assert r[i] == tail[i - 1] && r[j] == tail[j - 1];
        }
      }
    }
  }

  lemma {:induction false} NewestFirstSorted(rows: seq<Story>)
    ensures Pairwise(NewestFirst(rows), NotOlder)
    decreases |rows|
  {
    if rows != [] {
      NewestFirstSorted(rows[1..]);
      InsertNewestSorted(rows[0], NewestFirst(rows[1..]));
    }
  }

  // ---------------------------------------------------------------- what the statements do

  /**
   * `get_user`: the row with that username, or None when there is none; with
   * the UNIQUE constraint the row is determined by the name.
   */
  lemma SelectUserFinds(t: Tables, username: string)
    requires TablesValid(t)
    ensures SelectUser(t, username).Some? ==>
      SelectUser(t, username).value in t.users && SelectUser(t, username).value.username == username
    ensures forall u :: u in t.users && u.username == username ==> SelectUser(t, username) == Some(u)
    ensures SelectUser(t, username).None? <==> forall u :: u in t.users ==> u.username != username
  {
    var f := Filter(t.users, Named(username));
    UserNameUnique(t, username);
    if f != [] {
      assert f[0] in f;
    }
    forall u | u in t.users && u.username == username ensures SelectUser(t, username) == Some(u) {
      assert u in f;
    }
  }

  /**
   * `add_user`: a new username gets one row with an id above every id handed
   * out before, and every other username still selects what it did; a taken
   * username raises IntegrityError.
   */
  lemma InsertUserEffect(t: Tables, username: string, password: string, now: int, e: Exec<nat>)
    requires TablesValid(t) && e == InsertUserRow(t, username, password, now)
    ensures e.Raised? <==> SelectUser(t, username).Some?
    ensures e.Done? ==> forall u :: u in t.users ==> u.id < e.value
    ensures e.Done? ==> SelectUser(e.after, username) == Some(User(e.value, username, password, now))
    ensures e.Done? ==> forall other :: other != username ==> SelectUser(e.after, other) == SelectUser(t, other)
    ensures e.Done? ==> e.after.stories == t.stories
  {
    if e.Done? {
      var row := User(e.value, username, password, now);
      assert Filter(t.users, Named(username)) == [];
      FilterAppend(t.users, row, Named(username));
      forall other | other != username ensures SelectUser(e.after, other) == SelectUser(t, other) {
        FilterAppend(t.users, row, Named(other));
      }
    }
  }

  /**
   * `UPDATE users SET password`: the named user now holds the new digest with
   * its id and name kept, an absent name changes nothing, and every other user
   * is untouched.
   */
  lemma UpdatePasswordEffect(t: Tables, username: string, password: string, e: Exec<nat>)
    requires TablesValid(t) && e == UpdatePasswordRows(t, username, password)
    ensures e.value > 0 <==> SelectUser(t, username).Some?
    ensures SelectUser(e.after, username) ==
      (if SelectUser(t, username).Some? then Some(SelectUser(t, username).value.(password := password)) else None)
    ensures forall other :: other != username ==> SelectUser(e.after, other) == SelectUser(t, other)
    ensures e.after.stories == t.stories
  {
    var f := Filter(t.users, Named(username));
    if f != [] { assert f[0] in f; }
    FilterUpdate(t.users, Named(username), Named(username), WithPassword(password));
    forall other | other != username ensures SelectUser(e.after, other) == SelectUser(t, other) {
      var g := Filter(t.users, Named(other));
      FilterUpdate(t.users, Named(other), Named(username), WithPassword(password));
      if g != [] { assert g[0] in g; }
    }
  }

  /** `DELETE FROM users`: the name no longer selects a row and every other user is untouched. */
  lemma DeleteUserEffect(t: Tables, username: string, e: Exec<nat>)
    requires TablesValid(t) && e == DeleteUserRows(t, username)
    ensures e.value > 0 <==> SelectUser(t, username).Some?
    ensures SelectUser(e.after, username).None?
    ensures forall other :: other != username ==> SelectUser(e.after, other) == SelectUser(t, other)
    ensures e.after.stories == t.stories
  {
    var f := Filter(t.users, Named(username));
    if f != [] { assert f[0] in f; }
    SelectUserFinds(e.after, username);
    forall other | other != username ensures SelectUser(e.after, other) == SelectUser(t, other) {
      SelectUserFinds(t, other);
      SelectUserFinds(e.after, other);
    }
  }

  /**
   * `save_story`: the returned id is above every story id handed out before
   * (AUTOINCREMENT), and `get_story` on it gives back exactly what was saved;
   * other ids select what they did.
   */
  lemma InsertStoryEffect(t: Tables, userId: int, title: string, content: string, genre: string, now: int, e: Exec<nat>)
    requires TablesValid(t) && e == InsertStoryRow(t, userId, title, content, genre, now)
    ensures forall s :: s in t.stories ==> s.id < e.value
    ensures e.value > t.lastStoryId
    ensures SelectStory(e.after, e.value) == Some(Story(e.value, userId, title, content, genre, now))
    ensures forall id :: id != e.value ==> SelectStory(e.after, id) == SelectStory(t, id)
    ensures e.after.users == t.users
  {
    var row := Story(e.value, userId, title, content, genre, now);
    var f := Filter(t.stories, HasId(e.value));
    if f != [] { assert f[0] in f; }
    FilterAppend(t.stories, row, HasId(e.value));
    forall id | id != e.value ensures SelectStory(e.after, id) == SelectStory(t, id) {
      FilterAppend(t.stories, row, HasId(id));
    }
  }

  /** `get_story`: the story with that id, or None when there is none. */
  lemma SelectStoryFinds(t: Tables, id: int)
    requires TablesValid(t)
    ensures SelectStory(t, id).Some? ==> SelectStory(t, id).value in t.stories && SelectStory(t, id).value.id == id
    ensures forall s :: s in t.stories && s.id == id ==> SelectStory(t, id) == Some(s)
    ensures SelectStory(t, id).None? <==> forall s :: s in t.stories ==> s.id != id
  {
    var f := Filter(t.stories, HasId(id));
    StoryIdUnique(t, id);
    if f != [] {
      assert f[0] in f;
    }
    forall s | s in t.stories && s.id == id ensures SelectStory(t, id) == Some(s) {
      assert s in f;
    }
  }

  /**
   * `update_story`: a row matched iff the story exists; then only its title,
   * content and genre change, its id, owner and timestamp stay, and every
   * other story is untouched.
   */
  lemma UpdateStoryEffect(t: Tables, id: int, title: string, content: string, genre: string, e: Exec<nat>)
    requires TablesValid(t) && e == UpdateStoryRows(t, id, title, content, genre)
    ensures e.value > 0 <==> SelectStory(t, id).Some?
    ensures SelectStory(e.after, id) ==
      (if SelectStory(t, id).Some? then Some(SelectStory(t, id).value.(title := title, content := content, genre := genre)) else None)
    ensures forall other :: other != id ==> SelectStory(e.after, other) == SelectStory(t, other)
    ensures e.after.users == t.users
  {
    var f := Filter(t.stories, HasId(id));
    if f != [] { assert f[0] in f; }
    FilterUpdate(t.stories, HasId(id), HasId(id), Revised(title, content, genre));
    forall other | other != id ensures SelectStory(e.after, other) == SelectStory(t, other) {
      var g := Filter(t.stories, HasId(other));
      FilterUpdate(t.stories, HasId(other), HasId(id), Revised(title, content, genre));
      if g != [] { assert g[0] in g; }
    }
  }

  /** `delete_story`: a row matched iff the story existed; afterwards the id selects nothing and other stories are untouched. */
  lemma DeleteStoryEffect(t: Tables, id: int, e: Exec<nat>)
    requires TablesValid(t) && e == DeleteStoryRows(t, id)
    ensures e.value > 0 <==> SelectStory(t, id).Some?
    ensures SelectStory(e.after, id).None?
    ensures forall other :: other != id ==> SelectStory(e.after, other) == SelectStory(t, other)
    ensures e.after.users == t.users
  {
    var f := Filter(t.stories, HasId(id));
    if f != [] { assert f[0] in f; }
    SelectStoryFinds(e.after, id);
    forall other | other != id ensures SelectStory(e.after, other) == SelectStory(t, other) {
      SelectStoryFinds(t, other);
      SelectStoryFinds(e.after, other);
    }
  }

  /**
   * `get_user_stories`: exactly the stories owned by the user, each once,
   * newest first.
   */
  lemma SelectUserStoriesSpec(t: Tables, userId: int, r: seq<Story>)
    requires r == SelectUserStories(t, userId)
    ensures forall s :: s in r <==> s in t.stories && s.userId == userId
    ensures multiset(r) == multiset(Filter(t.stories, OwnedBy(userId)))
    ensures forall i, j :: 0 <= i < j < |r| ==> r[i].createdAt >= r[j].createdAt
  {
    var f := Filter(t.stories, OwnedBy(userId));
    forall s ensures s in r <==> s in f {
      assert s in r <==> s in multiset(r);
    }
    NewestFirstSorted(f);
    assert Pairwise(r, NotOlder);
  }

  // ---------------------------------------------------------------- the connection

  /** The cached connection every operation shares, with its committed tables. */
  class Connection {
    var tables: Tables

    ghost predicate Valid()
      reads this
    {
      TablesValid(tables)
    }

    /** `init_db`: creates both tables, empty. */
    constructor ()
      ensures Valid() && tables == Empty()
    {
      tables := Empty();
    }

    /**
     * `get_cursor`: a statement that completes is committed; one that raises
     * is rolled back, leaving the tables as they were, and its error is passed on.
     */
    method Run<T>(e: Exec<T>) returns (r: Result<T, SqlError>)
      requires Valid()
      requires e.Done? ==> TablesValid(e.after)
      modifies this
      ensures Valid()
      ensures e.Done? ==> r == Ok(e.value) && tables == e.after
      ensures e.Raised? ==> r == Err(e.error) && tables == old(tables)
    {
      match e
      case Done(value, after) =>
        tables := after;
        r := Ok(value);
      case Raised(error) =>
        r := Err(error);
    }

    /** `add_user`: false, with nothing changed, when the username is taken. */
    method AddUser(username: string, passwordHash: string, now: int) returns (ok: bool)
      requires Valid()
      modifies this
      ensures Valid()
      ensures ok <==> SelectUser(old(tables), username).None?
      ensures tables == if ok then InsertUserRow(old(tables), username, passwordHash, now).after else old(tables)
    {
      var r := Run(InsertUserRow(tables, username, passwordHash, now));
      ok := r.Ok?;
    }

    /** `get_user`. */
    method GetUser(username: string) returns (r: Option<User>)
      requires Valid()
      ensures r == SelectUser(tables, username)
      ensures r.Some? ==> r.value in tables.users && r.value.username == username
      ensures r.None? <==> forall u :: u in tables.users ==> u.username != username
    {
      SelectUserFinds(tables, username);
      r := SelectUser(tables, username);
    }

    /** `save_story`: returns `lastrowid`, an id above every story id used before. */
    method SaveStory(userId: int, title: string, content: string, genre: string, now: int) returns (id: nat)
      requires Valid()
      modifies this
      ensures Valid()
      ensures id == old(tables.lastStoryId) + 1
      ensures tables == InsertStoryRow(old(tables), userId, title, content, genre, now).after
      ensures SelectStory(tables, id) == Some(Story(id, userId, title, content, genre, now))
    {
      ghost var before := tables;
      var r := Run(InsertStoryRow(tables, userId, title, content, genre, now));
      InsertStoryEffect(before, userId, title, content, genre, now, InsertStoryRow(before, userId, title, content, genre, now));
      id := r.value;
    }

    /** `get_story`. */
    method GetStory(id: int) returns (r: Option<Story>)
      requires Valid()
      ensures r == SelectStory(tables, id)
      ensures r.Some? ==> r.value in tables.stories && r.value.id == id
      ensures r.None? <==> forall s :: s in tables.stories ==> s.id != id
    {
      SelectStoryFinds(tables, id);
      r := SelectStory(tables, id);
    }

    /** `get_user_stories`. */
    method GetUserStories(userId: int) returns (r: seq<Story>)
      requires Valid()
      ensures r == SelectUserStories(tables, userId)
      ensures forall s :: s in r <==> s in tables.stories && s.userId == userId
      ensures forall i, j :: 0 <= i < j < |r| ==> r[i].createdAt >= r[j].createdAt
    {
      r := SelectUserStories(tables, userId);
      SelectUserStoriesSpec(tables, userId, r);
    }

    /** `update_story`: true iff a row matched. */
    method UpdateStory(id: int, title: string, content: string, genre: string) returns (ok: bool)
      requires Valid()
      modifies this
      ensures Valid()
      ensures ok <==> SelectStory(old(tables), id).Some?
      ensures tables == UpdateStoryRows(old(tables), id, title, content, genre).after
    {
      ghost var before := tables;
      var r := Run(UpdateStoryRows(tables, id, title, content, genre));
      UpdateStoryEffect(before, id, title, content, genre, UpdateStoryRows(before, id, title, content, genre));
      ok := r.value > 0;
    }

    /** `delete_story`: true iff a row matched. */
    method DeleteStory(id: int) returns (ok: bool)
      requires Valid()
      modifies this
      ensures Valid()
      ensures ok <==> SelectStory(old(tables), id).Some?
      ensures tables == DeleteStoryRows(old(tables), id).after
    {
      ghost var before := tables;
      var r := Run(DeleteStoryRows(tables, id));
      DeleteStoryEffect(before, id, DeleteStoryRows(before, id));
      ok := r.value > 0;
    }
  }
}
