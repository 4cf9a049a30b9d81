/**
  The relational store behind the three repositories: the users, clubs and
  user_club tables with their generated-id counters. `Db` is a snapshot of the
  store as a value; `Database` is the store itself, whose methods are the
  inherited save and delete operations of the repositories. Each method is
  one statement against the store and keeps its constraints.
 */
module Store {
  import opened Model
  import UserRepo
  import ClubRepo
  import UserClubRepo

  datatype Db = Db(users: seq<User>, clubs: seq<Club>, userClubs: seq<UserClub>,
                   nextUserId: nat, nextClubId: nat, nextUserClubId: nat)

  /**
    What the store itself guarantees: generated ids are distinct and below the
    next id to hand out, usernames and (user_id, club_id) pairs are unique, and
    every user_club row refers to an existing user and an existing club (its two
    join columns).
   */
  ghost predicate WellFormed(db: Db)
  {
    && UserRepo.DistinctIds(db.users)
    && UserRepo.UniqueUsernames(db.users)
    && (forall u :: u in db.users ==> u.id < db.nextUserId)
    && ClubRepo.DistinctIds(db.clubs)
    && (forall c :: c in db.clubs ==> c.id < db.nextClubId)
    && UserClubRepo.DistinctIds(db.userClubs)
    && UserClubRepo.UniquePairs(db.userClubs)
    && (forall m :: m in db.userClubs ==> m.id < db.nextUserClubId)
    && (forall m :: m in db.userClubs ==> UserRepo.ExistsById(db.users, m.userId))
    && (forall m :: m in db.userClubs ==> ClubRepo.ExistsById(db.clubs, m.clubId))
  }

  /** An empty schema; IDENTITY columns start at 1. */
  const EmptyDb := Db([], [], [], 1, 1, 1)

  /** A club id the store has not handed out yet has no user_club rows. */
  lemma FreshClubHasNoRows(db: Db, clubId: ClubId)
    requires WellFormed(db) && clubId >= db.nextClubId
    ensures UserClubRepo.FindByClubId(db.userClubs, clubId) == []
    ensures UserClubRepo.FindAdminsByClubId(db.userClubs, clubId) == []
  {
    forall m | m in db.userClubs ensures m.clubId != clubId {
      var c :| c in db.clubs && c.id == m.clubId;
    }
    UserClubRepo.FindByClubIdNone(db.userClubs, clubId);
    UserClubRepo.AdminsWithinMembers(db.userClubs, clubId);
  }

  // ---------------------------------------------------------------------------
  // Each write of the store keeps WellFormed.

  lemma InsertUserWellFormed(db: Db, u: User)
    requires WellFormed(db) && !UserRepo.UsernameTaken(db.users, u.username)
    ensures WellFormed(db.(users := db.users + [u.(id := db.nextUserId)], nextUserId := db.nextUserId + 1))
  {
    var row := u.(id := db.nextUserId);
    UserRepo.AppendKeepsConstraints(db.users, row);
    forall m | m in db.userClubs ensures UserRepo.ExistsById(db.users + [row], m.userId) {
      var x :| x in db.users && x.id == m.userId;
      assert x in db.users + [row];
    }
  }

  /** Deleting a user together with the user's rows keeps the constraints; no row is left naming the user. */
  lemma DeleteUserWellFormed(db: Db, id: UserId)
    requires WellFormed(db)
    ensures WellFormed(db.(users := UserRepo.Delete(db.users, id),
                           userClubs := UserClubRepo.DeleteByUserId(db.userClubs, id)))
  {
    UserRepo.DeleteKeepsConstraints(db.users, id);
    UserClubRepo.DeleteByUserIdKeepsConstraints(db.userClubs, id);
    var users := UserRepo.Delete(db.users, id);
    forall m | m in UserClubRepo.DeleteByUserId(db.userClubs, id) ensures UserRepo.ExistsById(users, m.userId) {
      var x :| x in db.users && x.id == m.userId;
      assert x in users;
    }
  }

  lemma InsertClubWellFormed(db: Db, club: Club)
    requires WellFormed(db)
    ensures WellFormed(db.(clubs := db.clubs + [club.(id := db.nextClubId)], nextClubId := db.nextClubId + 1))
  {
    var row := club.(id := db.nextClubId);
    ClubRepo.AppendKeepsDistinct(db.clubs, row);
    forall m | m in db.userClubs ensures ClubRepo.ExistsById(db.clubs + [row], m.clubId) {
      var c :| c in db.clubs && c.id == m.clubId;
      assert c in db.clubs + [row];
    }
  }

  lemma ReplaceClubWellFormed(db: Db, club: Club)
    requires WellFormed(db) && ClubRepo.ExistsById(db.clubs, club.id)
    ensures WellFormed(db.(clubs := ClubRepo.Replace(db.clubs, club)))
  {
    var clubs := ClubRepo.Replace(db.clubs, club);
    ClubRepo.ReplaceKeepsDistinct(db.clubs, club);
    ClubRepo.ReplaceKeepsIds(db.clubs, club);
    ClubRepo.ReplaceKeepsOthers(db.clubs, club);
    var c :| c in db.clubs && c.id == club.id;
    assert forall x :: x in clubs ==> x.id < db.nextClubId;
    assert forall m :: m in db.userClubs ==> ClubRepo.ExistsById(clubs, m.clubId);
  }

  lemma DeleteClubWellFormed(db: Db, id: ClubId)
    requires WellFormed(db)
    ensures WellFormed(db.(clubs := ClubRepo.DeleteById(db.clubs, id),
                           userClubs := UserClubRepo.DeleteByClubId(db.userClubs, id)))
  {
    ClubRepo.DeleteKeepsDistinct(db.clubs, id);
    UserClubRepo.DeleteByClubIdKeepsConstraints(db.userClubs, id);
    var clubs := ClubRepo.DeleteById(db.clubs, id);
    forall m | m in UserClubRepo.DeleteByClubId(db.userClubs, id) ensures ClubRepo.ExistsById(clubs, m.clubId) {
      var c :| c in db.clubs && c.id == m.clubId;
      assert c in clubs;
    }
  }

  lemma InsertUserClubWellFormed(db: Db, m: UserClub)
    requires WellFormed(db)
    requires !UserClubRepo.HasMembership(db.userClubs, m.userId, m.clubId)
    requires UserRepo.ExistsById(db.users, m.userId) && ClubRepo.ExistsById(db.clubs, m.clubId)
    ensures WellFormed(db.(userClubs := db.userClubs + [m.(id := db.nextUserClubId)],
                           nextUserClubId := db.nextUserClubId + 1))
  {
    UserClubRepo.AppendKeepsConstraints(db.userClubs, m.(id := db.nextUserClubId));
  }

  lemma ReplaceUserClubWellFormed(db: Db, m: UserClub)
    requires WellFormed(db)
    requires forall x :: x in db.userClubs && x.id == m.id ==> x.userId == m.userId && x.clubId == m.clubId
    ensures WellFormed(db.(userClubs := UserClubRepo.Replace(db.userClubs, m)))
  {
    var t := db.userClubs;
    UserClubRepo.ReplaceKeepsConstraints(t, m);
    var r := UserClubRepo.Replace(t, m);
    forall x | x in r
      ensures x.id < db.nextUserClubId
      ensures UserRepo.ExistsById(db.users, x.userId) && ClubRepo.ExistsById(db.clubs, x.clubId)
    {
      if x !in t {
        var k :| 0 <= k < |t| && r[k] == x;
        assert t[k].id == m.id;
      }
    }
  }

  lemma DeleteUserClubWellFormed(db: Db, id: UserClubId)
    requires WellFormed(db)
    ensures WellFormed(db.(userClubs := UserClubRepo.Delete(db.userClubs, id)))
  {
    UserClubRepo.DeleteKeepsConstraints(db.userClubs, id);
  }

  class Database {
    var users: seq<User>
    var clubs: seq<Club>
    var userClubs: seq<UserClub>
    var nextUserId: nat
    var nextClubId: nat
    var nextUserClubId: nat

    function Snapshot(): Db
      reads this
    {
      Db(users, clubs, userClubs, nextUserId, nextClubId, nextUserClubId)
    }

    ghost predicate Valid()
      reads this
    {
      WellFormed(Snapshot())
    }

    constructor ()
      ensures Valid() && Snapshot() == EmptyDb
    {
      users, clubs, userClubs := [], [], [];
      nextUserId, nextClubId, nextUserClubId := 1, 1, 1;
    }

    /** UserRepo.save of a new user: the store assigns the id; a taken username violates integrity. */
    method SaveNewUser(u: User) returns (saved: Option<User>)
      requires Valid()
      modifies this
      ensures Valid()
      ensures saved.None? <==> UserRepo.UsernameTaken(old(users), u.username)
      ensures saved.None? ==> Snapshot() == old(Snapshot())
      ensures saved.Some? ==>
                saved.value == u.(id := old(nextUserId)) &&
                Snapshot() == old(Snapshot()).(users := old(users) + [saved.value],
                                               nextUserId := old(nextUserId) + 1)
    {
      if UserRepo.FindByUsername(users, u.username).Some? {
        return None;
      }
      InsertUserWellFormed(Snapshot(), u);
      var row := u.(id := nextUserId);
      users := users + [row];
      nextUserId := nextUserId + 1;
      saved := Some(row);
    }

    /** UserRepo.delete: the user and, through the memberships relation, every row of the user. */
    method DeleteUser(id: UserId)
      requires Valid()
      modifies this
      ensures Valid()
      ensures Snapshot() == old(Snapshot()).(users := UserRepo.Delete(old(users), id),
                                             userClubs := UserClubRepo.DeleteByUserId(old(userClubs), id))
    {
      DeleteUserWellFormed(Snapshot(), id);
      users := UserRepo.Delete(users, id);
      userClubs := UserClubRepo.DeleteByUserId(userClubs, id);
    }

    /** ClubRepo.save of a new club: the store assigns the id. */
    method SaveNewClub(club: Club) returns (saved: Club)
      requires Valid()
      modifies this
      ensures Valid()
      ensures saved == club.(id := old(nextClubId))
      ensures Snapshot() == old(Snapshot()).(clubs := old(clubs) + [saved],
                                             nextClubId := old(nextClubId) + 1)
    {
      InsertClubWellFormed(Snapshot(), club);
      saved := club.(id := nextClubId);
      clubs := clubs + [saved];
      nextClubId := nextClubId + 1;
    }

    /** ClubRepo.save of a loaded club: the row with that id is overwritten. */
    method SaveClub(club: Club)
      requires Valid() && ClubRepo.ExistsById(clubs, club.id)
      modifies this
      ensures Valid()
      ensures Snapshot() == old(Snapshot()).(clubs := ClubRepo.Replace(old(clubs), club))
    {
      ReplaceClubWellFormed(Snapshot(), club);
      clubs := ClubRepo.Replace(clubs, club);
    }

    /** ClubRepo.delete / deleteById: the club and, by cascade, every row of its members. */
    method DeleteClub(id: ClubId)
      requires Valid()
      modifies this
      ensures Valid()
      ensures Snapshot() == old(Snapshot()).(clubs := ClubRepo.DeleteById(old(clubs), id),
                                             userClubs := UserClubRepo.DeleteByClubId(old(userClubs), id))
    {
      DeleteClubWellFormed(Snapshot(), id);
      clubs := ClubRepo.DeleteById(clubs, id);
      userClubs := UserClubRepo.DeleteByClubId(userClubs, id);
    }

    /**
      UserClubRepo.save of a new row: the store assigns the id. A second row for
      the same (user, club) pair, or a row for a missing user or club, violates integrity.
     */
    method SaveNewUserClub(m: UserClub) returns (saved: Option<UserClub>)
      requires Valid()
      modifies this
      ensures Valid()
      ensures saved.None? <==>
                UserClubRepo.HasMembership(old(userClubs), m.userId, m.clubId) ||
                !UserRepo.ExistsById(old(users), m.userId) || !ClubRepo.ExistsById(old(clubs), m.clubId)
      ensures saved.None? ==> Snapshot() == old(Snapshot())
      ensures saved.Some? ==>
                saved.value == m.(id := old(nextUserClubId)) &&
                Snapshot() == old(Snapshot()).(userClubs := old(userClubs) + [saved.value],
                                               nextUserClubId := old(nextUserClubId) + 1)
    {
      if UserClubRepo.FindByUserIdAndClubId(userClubs, m.userId, m.clubId).Some? ||
         UserRepo.FindById(users, m.userId).None? || !ClubRepo.ExistsById(clubs, m.clubId) {
        return None;
      }
      InsertUserClubWellFormed(Snapshot(), m);
      var row := m.(id := nextUserClubId);
      userClubs := userClubs + [row];
      nextUserClubId := nextUserClubId + 1;
      saved := Some(row);
    }

    /** UserClubRepo.save of a loaded row: same id, user and club; other columns overwritten. */
    method SaveUserClub(m: UserClub)
      requires Valid()
      requires forall x :: x in userClubs && x.id == m.id ==> x.userId == m.userId && x.clubId == m.clubId
      modifies this
      ensures Valid()
      ensures Snapshot() == old(Snapshot()).(userClubs := UserClubRepo.Replace(old(userClubs), m))
    {
      ReplaceUserClubWellFormed(Snapshot(), m);
      userClubs := UserClubRepo.Replace(userClubs, m);
    }

    /** UserClubRepo.delete: removes the row with that id. */
    method DeleteUserClub(m: UserClub)
      requires Valid()
      modifies this
      ensures Valid()
      ensures Snapshot() == old(Snapshot()).(userClubs := UserClubRepo.Delete(old(userClubs), m.id))
    {
      DeleteUserClubWellFormed(Snapshot(), m.id);
      userClubs := UserClubRepo.Delete(userClubs, m.id);
    }
  }
}
