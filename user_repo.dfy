/**
  The users table and the queries its repository declares or inherits.
 */
module UserRepo {
  import opened Model

  /** Generated ids: no two users share an id. */
  ghost predicate DistinctIds(users: seq<User>)
  {
    users == [] || ((forall u :: u in users[1..] ==> u.id != users[0].id) && DistinctIds(users[1..]))
  }

  /** The username column is unique: a second insert of a name is an integrity violation. */
  ghost predicate UniqueUsernames(users: seq<User>)
  {
    users == [] ||
    ((forall u :: u in users[1..] ==> u.username != users[0].username) && UniqueUsernames(users[1..]))
  }

  predicate UsernameTaken(users: seq<User>, username: string)
  {
    exists u :: u in users && u.username == username
  }

  predicate ExistsById(users: seq<User>, id: UserId)
  {
    exists u :: u in users && u.id == id
  }

  /** findById: the user with that id, or none. */
  function FindById(users: seq<User>, id: UserId): (r: Option<User>)
    ensures r.Some? ==> r.value in users && r.value.id == id
    ensures r.None? <==> !ExistsById(users, id)
  {
    if users == [] then None
    else if users[0].id == id then Some(users[0])
    else
      var r := FindById(users[1..], id);
      assert forall u :: u in users ==> u == users[0] || u in users[1..];
      r
  }

  /** findByUsername: the user with that username, or null (None). */
  function FindByUsername(users: seq<User>, username: string): (r: Option<User>)
    ensures r.Some? ==> r.value in users && r.value.username == username
    ensures r.None? <==> !UsernameTaken(users, username)
  {
    if users == [] then None
    else if users[0].username == username then Some(users[0])
    else
      var r := FindByUsername(users[1..], username);
      assert forall u :: u in users ==> u == users[0] || u in users[1..];
      r
  }

  /** SELECT u FROM User u WHERE u.id != :userId, in table order. */
  function FindAllExceptUserId(users: seq<User>, id: UserId): (r: seq<User>)
    ensures |r| <= |users|
    ensures forall u :: u in r <==> u in users && u.id != id
  {
    if users == [] then []
    else
      var rest := FindAllExceptUserId(users[1..], id);
      assert forall u :: u in users ==> u == users[0] || u in users[1..];
      if users[0].id != id then [users[0]] + rest else rest
  }

  /** delete(entity): removes the user with that id. */
  function Delete(users: seq<User>, id: UserId): (r: seq<User>)
    ensures |r| <= |users|
    ensures forall u :: u in r <==> u in users && u.id != id
  {
    FindAllExceptUserId(users, id)
  }

  /** With unique usernames, the lookup by name finds the one user holding it. */
  lemma {:induction false} FindByUsernameUnique(users: seq<User>, u: User)
    requires UniqueUsernames(users) && u in users
    ensures FindByUsername(users, u.username) == Some(u)
  {
    if users[0] != u {
      assert u in users[1..];
      FindByUsernameUnique(users[1..], u);
    }
  }

  /** With distinct ids, the lookup by id finds the one user holding it. */
  lemma {:induction false} FindByIdUnique(users: seq<User>, u: User)
    requires DistinctIds(users) && u in users
    ensures FindById(users, u.id) == Some(u)
  {
    if users[0] != u {
      assert u in users[1..];
      FindByIdUnique(users[1..], u);
    }
  }

  /** Deleting an id no user has leaves the table as it is. */
  lemma {:induction false} DeleteAbsent(users: seq<User>, id: UserId)
    requires forall u :: u in users ==> u.id != id
    ensures Delete(users, id) == users
  {
    if users != [] {
      assert users[0] in users;
      assert forall u :: u in users[1..] ==> u in users;
      DeleteAbsent(users[1..], id);
    }
  }

  /** With distinct ids, deleting a stored user's id removes exactly one row. */
  lemma {:induction false} DeleteOne(users: seq<User>, u: User)
    requires DistinctIds(users) && u in users
    ensures |Delete(users, u.id)| == |users| - 1
  {
    if users[0] == u {
      DeleteAbsent(users[1..], u.id);
    } else {
      assert u in users[1..];
      DeleteOne(users[1..], u);
    }
  }

  lemma {:induction false} AppendKeepsConstraints(users: seq<User>, u: User)
    requires DistinctIds(users) && UniqueUsernames(users)
    requires forall x :: x in users ==> x.id != u.id
    requires !UsernameTaken(users, u.username)
    ensures DistinctIds(users + [u]) && UniqueUsernames(users + [u])
  {
    if users == [] {
      assert [] + [u] == [u];
      assert [u][1..] == [];
    } else {
      assert (users + [u])[0] == users[0];
      assert (users + [u])[1..] == users[1..] + [u];
      assert users[0] in users;
      assert forall x :: x in users[1..] ==> x in users;
      AppendKeepsConstraints(users[1..], u);
    }
  }

  lemma {:induction false} DeleteKeepsConstraints(users: seq<User>, id: UserId)
    requires DistinctIds(users) && UniqueUsernames(users)
    ensures DistinctIds(Delete(users, id)) && UniqueUsernames(Delete(users, id))
  {
    if users != [] {
      DeleteKeepsConstraints(users[1..], id);
    }
  }
}
