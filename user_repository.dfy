/** FamilyChat.Infrastructure/Repositories/UserRepository.cs: queries over the
    user table, and the table's key and unique-index constraints. */
module UserRepository {
  import opened Wrappers
  import opened Text
  import opened Primitives
  import opened UserEntity

  /** Primary key: user ids are distinct. */
  predicate DistinctIds(users: seq<User>) {
    forall i, j :: 0 <= i < j < |users| ==> users[i].Id != users[j].Id
  }

  /** The unique index on Email. */
  predicate DistinctEmails(users: seq<User>) {
    forall i, j :: 0 <= i < j < |users| ==> users[i].Email != users[j].Email
  }

  /** The first user whose stored email is exactly `email`. */
  function FirstWithEmail(users: seq<User>, email: string): (r: Option<User>)
    ensures r.None? <==> forall i :: 0 <= i < |users| ==> users[i].Email != email
    ensures r.Some? ==> r.value.Email == email
    ensures r.Some? ==> (exists i :: 0 <= i < |users| && users[i] == r.value
                          && forall j :: 0 <= j < i ==> users[j].Email != email)
  {
    if users == [] then None
    else if users[0].Email == email then Some(users[0])
    else
      var r := FirstWithEmail(users[1..], email);
      r
  }

  /** The unique index's test: some stored email is exactly `email`. */
  predicate HasEmail(users: seq<User>, email: string) {
    exists i :: 0 <= i < |users| && users[i].Email == email
  }

  /** `GetByEmailAsync(email)`: a user whose stored email equals the lower-cased
      argument, or null when there is none. */
  function GetByEmail(users: seq<User>, email: string): (r: Option<User>)
    ensures r.Some? ==> r.value in users && r.value.Email == ToLowerInvariant(email)
    ensures r.None? <==> forall i :: 0 <= i < |users| ==> users[i].Email != ToLowerInvariant(email)
  {
    FirstWithEmail(users, ToLowerInvariant(email))
  }

  /** `ExistsByEmailAsync(email)`: holds exactly when `GetByEmailAsync(email)` finds a user. */
  function ExistsByEmail(users: seq<User>, email: string): (r: bool)
    ensures r <==> GetByEmail(users, email).Some?
  {
    HasEmail(users, ToLowerInvariant(email))
  }

  /** The lookup is case-insensitive: an email and its lower-cased form find the same user. */
  lemma GetByEmailIgnoresCase(users: seq<User>, email: string)
    ensures GetByEmail(users, email) == GetByEmail(users, ToLowerInvariant(email))
    ensures ExistsByEmail(users, email) == ExistsByEmail(users, ToLowerInvariant(email))
  {
    ToLowerInvariantIdempotent(email);
  }

  /** With the unique index there is at most one match: any stored user whose
      email is the lower-cased argument is the one returned. */
  lemma GetByEmailIsTheMatch(users: seq<User>, email: string, u: User)
    requires DistinctEmails(users)
    requires u in users && u.Email == ToLowerInvariant(email)
    ensures GetByEmail(users, email) == Some(u)
  {
    var i :| 0 <= i < |users| && users[i] == u;
    var j :| 0 <= j < |users| && users[j] == GetByEmail(users, email).value;
  }

  // `GetById`, `Exists` and `GetByIdIsTheMatch` stand for the one generic base
  // repository the three repositories share; the model writes them once per
  // table because each table holds a different entity class.

  /** `GetByIdAsync(id)` of the base repository: the user with that key, or null. */
  function GetById(users: seq<User>, id: Guid): (r: Option<User>)
    ensures r.Some? ==> r.value in users && r.value.Id == id
    ensures r.None? <==> forall i :: 0 <= i < |users| ==> users[i].Id != id
  {
    if users == [] then None
    else if users[0].Id == id then Some(users[0])
    else GetById(users[1..], id)
  }

  /** `ExistsAsync(id)`: holds exactly when some stored user has that id, which is
      when `GetByIdAsync(id)` finds one. */
  function Exists(users: seq<User>, id: Guid): (r: bool)
    ensures r <==> GetById(users, id).Some?
  {
    exists i :: 0 <= i < |users| && users[i].Id == id
  }

  /** With distinct keys, the user `GetById` returns for a stored user's id is that user. */
  lemma GetByIdIsTheMatch(users: seq<User>, u: User)
    requires DistinctIds(users) && u in users
    ensures GetById(users, u.Id) == Some(u)
  {
    var i :| 0 <= i < |users| && users[i] == u;
    var j :| 0 <= j < |users| && users[j] == GetById(users, u.Id).value;
  }

  /** After inserting `u`, exactly the old ids and `u.Id` are stored. */
  lemma ExistsAfterInsert(users: seq<User>, u: User)
    ensures forall id :: Exists(users + [u], id) <==> Exists(users, id) || id == u.Id
  {
    var r := users + [u];
    assert r[|users|] == u;
    forall id | Exists(users, id) ensures Exists(r, id) {
      var i :| 0 <= i < |users| && users[i].Id == id;
      assert r[i].Id == id;
    }
    forall id | Exists(r, id) ensures Exists(users, id) || id == u.Id {
      var i :| 0 <= i < |r| && r[i].Id == id;
      if i < |users| { assert users[i].Id == id; }
    }
  }
}
