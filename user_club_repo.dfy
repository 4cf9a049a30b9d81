/**
  The user_club table and the queries of its repository. Every query is an
  exact-match filter or count over the table, so each is a function of the
  table value and cannot change it. The table's own write operations
  (insert through save, update through save, delete, and the cascade from a
  deleted club) are functions too, with the lemmas that say how each write
  moves the queries.
 */
module UserClubRepo {
  import opened Model

  // ---------------------------------------------------------------------------
  // Table constraints

  /** Generated ids: no two rows share an id. */
  ghost predicate DistinctIds(t: seq<UserClub>)
  {
    t == [] || ((forall m :: m in t[1..] ==> m.id != t[0].id) && DistinctIds(t[1..]))
  }

  /** The unique (user_id, club_id) constraint of the user_club table. */
  ghost predicate UniquePairs(t: seq<UserClub>)
  {
    t == [] ||
    ((forall m :: m in t[1..] ==> !(m.userId == t[0].userId && m.clubId == t[0].clubId)) &&
     UniquePairs(t[1..]))
  }

  /** Some row links the user to the club. */
  predicate HasMembership(t: seq<UserClub>, userId: UserId, clubId: ClubId)
  {
    exists m :: m in t && m.userId == userId && m.clubId == clubId
  }

  /** Some row links the user to the club with the club role ADMIN. */
  predicate HasAdminMembership(t: seq<UserClub>, userId: UserId, clubId: ClubId)
  {
    exists m :: m in t && m.userId == userId && m.clubId == clubId && m.clubRole == ClubRole.ADMIN
  }

  // ---------------------------------------------------------------------------
  // The declared queries

  /** The row whose user id and club id both match, or none. */
  function FindByUserIdAndClubId(t: seq<UserClub>, userId: UserId, clubId: ClubId): (r: Option<UserClub>)
    ensures r.Some? ==> r.value in t && r.value.userId == userId && r.value.clubId == clubId
    ensures r.None? <==> !HasMembership(t, userId, clubId)
  {
    if t == [] then None
    else if t[0].userId == userId && t[0].clubId == clubId then Some(t[0])
    else
      var r := FindByUserIdAndClubId(t[1..], userId, clubId);
      assert forall m :: m in t ==> m == t[0] || m in t[1..];
      r
  }

  /** Every row of the club, in table order. */
  function FindByClubId(t: seq<UserClub>, clubId: ClubId): (r: seq<UserClub>)
    ensures |r| <= |t|
    ensures forall m :: m in r <==> m in t && m.clubId == clubId
  {
    if t == [] then []
    else
      var rest := FindByClubId(t[1..], clubId);
      assert forall m :: m in t ==> m == t[0] || m in t[1..];
      if t[0].clubId == clubId then [t[0]] + rest else rest
  }

  /** SELECT COUNT(uc) ... WHERE uc.club.id = :clubId. */
  function CountByClubId(t: seq<UserClub>, clubId: ClubId): (n: nat)
    ensures n == |FindByClubId(t, clubId)|
  {
    if t == [] then 0
    else (if t[0].clubId == clubId then 1 else 0) + CountByClubId(t[1..], clubId)
  }

  /** The rows of the club whose club role is ADMIN, in table order. */
  function FindAdminsByClubId(t: seq<UserClub>, clubId: ClubId): (r: seq<UserClub>)
    ensures forall m :: m in r <==> m in t && m.clubId == clubId && m.clubRole == ClubRole.ADMIN
  {
    if t == [] then []
    else
      var rest := FindAdminsByClubId(t[1..], clubId);
      assert forall m :: m in t ==> m == t[0] || m in t[1..];
      if t[0].clubId == clubId && t[0].clubRole == ClubRole.ADMIN then [t[0]] + rest else rest
  }

  /** The rows of one user: the `memberships` collection of the user entity. */
  function FindByUserId(t: seq<UserClub>, userId: UserId): (r: seq<UserClub>)
    ensures |r| <= |t|
    ensures forall m :: m in r <==> m in t && m.userId == userId
  {
    if t == [] then []
    else
      var rest := FindByUserId(t[1..], userId);
      assert forall m :: m in t ==> m == t[0] || m in t[1..];
      if t[0].userId == userId then [t[0]] + rest else rest
  }

  // ---------------------------------------------------------------------------
  // Writes

  /** delete(entity): removes the row with that id. */
  function Delete(t: seq<UserClub>, id: UserClubId): (r: seq<UserClub>)
    ensures |r| <= |t|
    ensures forall m :: m in r <==> m in t && m.id != id
  {
    if t == [] then []
    else
      var rest := Delete(t[1..], id);
      assert forall m :: m in t ==> m == t[0] || m in t[1..];
      if t[0].id == id then rest else [t[0]] + rest
  }

  /** save(entity) of a row that already exists: the row with that id becomes `m`. */
  function Replace(t: seq<UserClub>, m: UserClub): (r: seq<UserClub>)
    ensures |r| == |t|
    ensures forall i :: 0 <= i < |t| ==> r[i] == if t[i].id == m.id then m else t[i]
  {
    if t == [] then []
    else [if t[0].id == m.id then m else t[0]] + Replace(t[1..], m)
  }

  /** The Club.members cascade: every row of the deleted club goes with it. */
  function DeleteByClubId(t: seq<UserClub>, clubId: ClubId): (r: seq<UserClub>)
    ensures |r| <= |t|
    ensures forall m :: m in r <==> m in t && m.clubId != clubId
  {
    if t == [] then []
    else
      var rest := DeleteByClubId(t[1..], clubId);
      assert forall m :: m in t ==> m == t[0] || m in t[1..];
      if t[0].clubId == clubId then rest else [t[0]] + rest
  }

  /**
    The cascade through the deleted user's `memberships` collection: every row
    of the user goes with the user.
   */
  function DeleteByUserId(t: seq<UserClub>, userId: UserId): (r: seq<UserClub>)
    ensures |r| <= |t|
    ensures forall m :: m in r <==> m in t && m.userId != userId
  {
    if t == [] then []
    else
      var rest := DeleteByUserId(t[1..], userId);
      assert forall m :: m in t ==> m == t[0] || m in t[1..];
      if t[0].userId == userId then rest else [t[0]] + rest
  }

  // ---------------------------------------------------------------------------
  // Lemmas: uniqueness and lookups

  /** By the unique (user_id, club_id) constraint, the lookup finds the one row of that pair. */
  lemma {:induction false} FindByPairUnique(t: seq<UserClub>, m: UserClub)
    requires UniquePairs(t) && m in t
    ensures FindByUserIdAndClubId(t, m.userId, m.clubId) == Some(m)
  {
    if t[0] != m {
      assert m in t[1..];
      FindByPairUnique(t[1..], m);
    }
  }

  /** Every row of the pair is the one the lookup returns. */
  lemma FindByPairExact(t: seq<UserClub>, userId: UserId, clubId: ClubId)
    requires UniquePairs(t)
    ensures forall m :: m in t && m.userId == userId && m.clubId == clubId ==>
                          FindByUserIdAndClubId(t, userId, clubId) == Some(m)
  {
    forall m | m in t && m.userId == userId && m.clubId == clubId
      ensures FindByUserIdAndClubId(t, userId, clubId) == Some(m)
    {
      FindByPairUnique(t, m);
    }
  }

  /** Two rows with the same id in a table with distinct ids are the same row. */
  lemma {:induction false} SameIdSameRow(t: seq<UserClub>, a: UserClub, b: UserClub)
    requires DistinctIds(t) && a in t && b in t && a.id == b.id
    ensures a == b
  {
    if a != t[0] && b != t[0] {
      assert a in t[1..] && b in t[1..];
      SameIdSameRow(t[1..], a, b);
    }
  }

  /** A club no row refers to has no rows. */
  lemma {:induction false} FindByClubIdNone(t: seq<UserClub>, clubId: ClubId)
    requires forall m :: m in t ==> m.clubId != clubId
    ensures FindByClubId(t, clubId) == []
  {
    if t != [] {
      assert t[0] in t;
      assert forall m :: m in t[1..] ==> m in t;
      FindByClubIdNone(t[1..], clubId);
    }
  }

  /** Deleting an id no row has leaves the table as it is. */
  lemma {:induction false} DeleteAbsent(t: seq<UserClub>, id: UserClubId)
    requires forall m :: m in t ==> m.id != id
    ensures Delete(t, id) == t
  {
    if t != [] {
      assert t[0] in t;
      assert forall m :: m in t[1..] ==> m in t;
      DeleteAbsent(t[1..], id);
    }
  }

  /** Replacing an id no row has leaves the table as it is. */
  lemma {:induction false} ReplaceAbsent(t: seq<UserClub>, m: UserClub)
    requires forall x :: x in t ==> x.id != m.id
    ensures Replace(t, m) == t
  {
    if t != [] {
      assert t[0] in t;
      assert forall x :: x in t[1..] ==> x in t;
      ReplaceAbsent(t[1..], m);
    }
  }

  /** Deleting a row by its id removes exactly the rows of its (user, club) pair. */
  lemma DeleteExactlyPair(t: seq<UserClub>, row: UserClub)
    requires DistinctIds(t) && UniquePairs(t) && row in t
    ensures forall m :: m in Delete(t, row.id) <==>
                          m in t && !(m.userId == row.userId && m.clubId == row.clubId)
  {
    forall m | m in t
      ensures m.id == row.id <==> (m.userId == row.userId && m.clubId == row.clubId)
    {
      if m.id == row.id {
        SameIdSameRow(t, m, row);
      }
      if m.userId == row.userId && m.clubId == row.clubId {
        FindByPairUnique(t, m);
        FindByPairUnique(t, row);
      }
    }
  }

  /** Overwriting a row by its id changes exactly the row of its (user, club) pair. */
  lemma ReplaceExactlyPair(t: seq<UserClub>, row: UserClub, m: UserClub)
    requires DistinctIds(t) && UniquePairs(t) && row in t && m.id == row.id
    ensures forall i :: 0 <= i < |t| ==>
              Replace(t, m)[i] == if t[i].userId == row.userId && t[i].clubId == row.clubId then m else t[i]
  {
    forall i | 0 <= i < |t|
      ensures t[i].id == row.id <==> (t[i].userId == row.userId && t[i].clubId == row.clubId)
    {
      if t[i].id == row.id {
        SameIdSameRow(t, t[i], row);
      }
      if t[i].userId == row.userId && t[i].clubId == row.clubId {
        FindByPairUnique(t, t[i]);
        FindByPairUnique(t, row);
      }
    }
  }

  // ---------------------------------------------------------------------------
  // Lemmas: how each write moves the club queries

  /** Appending a row adds it to its club's rows and to nothing else. */
  lemma {:induction false} FindByClubIdAppend(t: seq<UserClub>, m: UserClub, clubId: ClubId)
    ensures FindByClubId(t + [m], clubId) ==
            FindByClubId(t, clubId) + (if m.clubId == clubId then [m] else [])
  {
    if t == [] {
      assert [] + [m] == [m];
    } else {
      assert (t + [m])[0] == t[0];
      assert (t + [m])[1..] == t[1..] + [m];
      FindByClubIdAppend(t[1..], m, clubId);
    }
  }

  /** A club never has more admin rows than rows. */
  lemma {:induction false} AdminsWithinMembers(t: seq<UserClub>, clubId: ClubId)
    ensures |FindAdminsByClubId(t, clubId)| <= CountByClubId(t, clubId)
  {
    if t != [] {
      AdminsWithinMembers(t[1..], clubId);
    }
  }

  /** Appending a row adds it to its club's admins when it is an ADMIN row. */
  lemma {:induction false} FindAdminsAppend(t: seq<UserClub>, m: UserClub, clubId: ClubId)
    ensures FindAdminsByClubId(t + [m], clubId) ==
            FindAdminsByClubId(t, clubId) +
            (if m.clubId == clubId && m.clubRole == ClubRole.ADMIN then [m] else [])
  {
    if t == [] {
      assert [] + [m] == [m];
    } else {
      assert (t + [m])[0] == t[0];
      assert (t + [m])[1..] == t[1..] + [m];
      FindAdminsAppend(t[1..], m, clubId);
    }
  }

  /** Deleting one row lowers its club's admin count by one if it was an ADMIN row, and no other. */
  lemma {:induction false} FindAdminsDelete(t: seq<UserClub>, m: UserClub, clubId: ClubId)
    requires DistinctIds(t) && m in t
    ensures |FindAdminsByClubId(Delete(t, m.id), clubId)| ==
            |FindAdminsByClubId(t, clubId)| -
            (if m.clubId == clubId && m.clubRole == ClubRole.ADMIN then 1 else 0)
  {
    if t[0] == m {
      DeleteAbsent(t[1..], m.id);
    } else {
      assert m in t[1..];
      FindAdminsDelete(t[1..], m, clubId);
    }
  }

  /** Deleting one row lowers its club's member count by one, and no other. */
  lemma {:induction false} CountDelete(t: seq<UserClub>, m: UserClub, clubId: ClubId)
    requires DistinctIds(t) && m in t
    ensures CountByClubId(Delete(t, m.id), clubId) ==
            CountByClubId(t, clubId) - (if m.clubId == clubId then 1 else 0)
  {
    if t[0] == m {
      DeleteAbsent(t[1..], m.id);
    } else {
      assert m in t[1..];
      CountDelete(t[1..], m, clubId);
    }
  }

  /**
    Overwriting a row `old'` by `m` with the same id and club moves the admin count of
    that club by the change of role, and leaves every other club's admins alone.
   */
  lemma {:induction false} FindAdminsReplace(t: seq<UserClub>, old': UserClub, m: UserClub, clubId: ClubId)
    requires DistinctIds(t) && old' in t && old'.id == m.id && old'.clubId == m.clubId
    ensures |FindAdminsByClubId(Replace(t, m), clubId)| ==
            |FindAdminsByClubId(t, clubId)|
            - (if old'.clubId == clubId && old'.clubRole == ClubRole.ADMIN then 1 else 0)
            + (if m.clubId == clubId && m.clubRole == ClubRole.ADMIN then 1 else 0)
  {
    if t[0] == old' {
      ReplaceAbsent(t[1..], m);
    } else {
      assert old' in t[1..];
      FindAdminsReplace(t[1..], old', m, clubId);
    }
  }

  /** Overwriting a row by one of the same id and club keeps every club's member count. */
  lemma {:induction false} CountReplace(t: seq<UserClub>, old': UserClub, m: UserClub, clubId: ClubId)
    requires DistinctIds(t) && old' in t && old'.id == m.id && old'.clubId == m.clubId
    ensures CountByClubId(Replace(t, m), clubId) == CountByClubId(t, clubId)
  {
    if t[0] == old' {
      ReplaceAbsent(t[1..], m);
    } else {
      assert old' in t[1..];
      CountReplace(t[1..], old', m, clubId);
    }
  }

  /** The cascade of one club leaves the admins of every other club as they were. */
  lemma {:induction false} FindAdminsDeleteByClubId(t: seq<UserClub>, gone: ClubId, clubId: ClubId)
    requires gone != clubId
    ensures FindAdminsByClubId(DeleteByClubId(t, gone), clubId) == FindAdminsByClubId(t, clubId)
  {
    if t != [] {
      FindAdminsDeleteByClubId(t[1..], gone, clubId);
    }
  }

  /** The cascade of one club leaves the rows of every other club as they were. */
  lemma {:induction false} FindByClubIdDeleteByClubId(t: seq<UserClub>, gone: ClubId, clubId: ClubId)
    requires gone != clubId
    ensures FindByClubId(DeleteByClubId(t, gone), clubId) == FindByClubId(t, clubId)
  {
    if t != [] {
      FindByClubIdDeleteByClubId(t[1..], gone, clubId);
    }
  }

  // ---------------------------------------------------------------------------
  // Lemmas: the writes keep the table constraints

  lemma {:induction false} AppendKeepsConstraints(t: seq<UserClub>, m: UserClub)
    requires DistinctIds(t) && UniquePairs(t)
    requires forall x :: x in t ==> x.id != m.id
    requires !HasMembership(t, m.userId, m.clubId)
    ensures DistinctIds(t + [m]) && UniquePairs(t + [m])
  {
    if t == [] {
      assert [] + [m] == [m];
      assert [m][1..] == [];
    } else {
      assert (t + [m])[0] == t[0];
      assert (t + [m])[1..] == t[1..] + [m];
      assert t[0] in t;
      assert forall x :: x in t[1..] ==> x in t;
      assert !HasMembership(t[1..], m.userId, m.clubId);
      AppendKeepsConstraints(t[1..], m);
    }
  }

  lemma {:induction false} DeleteKeepsConstraints(t: seq<UserClub>, id: UserClubId)
    requires DistinctIds(t) && UniquePairs(t)
    ensures DistinctIds(Delete(t, id)) && UniquePairs(Delete(t, id))
  {
    if t != [] {
      DeleteKeepsConstraints(t[1..], id);
    }
  }

  lemma {:induction false} DeleteByClubIdKeepsConstraints(t: seq<UserClub>, clubId: ClubId)
    requires DistinctIds(t) && UniquePairs(t)
    ensures DistinctIds(DeleteByClubId(t, clubId)) && UniquePairs(DeleteByClubId(t, clubId))
  {
    if t != [] {
      DeleteByClubIdKeepsConstraints(t[1..], clubId);
    }
  }

  lemma {:induction false} DeleteByUserIdKeepsConstraints(t: seq<UserClub>, userId: UserId)
    requires DistinctIds(t) && UniquePairs(t)
    ensures DistinctIds(DeleteByUserId(t, userId)) && UniquePairs(DeleteByUserId(t, userId))
  {
    if t != [] {
      DeleteByUserIdKeepsConstraints(t[1..], userId);
    }
  }

  /** Overwriting a row by one with the same id, user and club keeps the constraints. */
  lemma {:induction false} ReplaceKeepsConstraints(t: seq<UserClub>, m: UserClub)
    requires DistinctIds(t) && UniquePairs(t)
    requires forall x :: x in t && x.id == m.id ==> x.userId == m.userId && x.clubId == m.clubId
    ensures DistinctIds(Replace(t, m)) && UniquePairs(Replace(t, m))
    ensures forall x :: x in Replace(t, m) ==> x in t || x == m
  {
    if t != [] {
      var r := Replace(t, m);
      assert forall x :: x in t[1..] ==> x in t;
      ReplaceKeepsConstraints(t[1..], m);
      assert r[1..] == Replace(t[1..], m);
      assert forall x :: x in r ==> x == r[0] || x in r[1..];
    }
  }
}
