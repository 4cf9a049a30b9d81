/**
  The system administrator's operations. Each first asks for the system role
  ADMIN; club roles play no part here.
 */
module AdminSpec {
  import opened Model
  import opened Dto
  import opened Store
  import UserRepo
  import ClubRepo
  import UserClubRepo
  import UserService
  import ClubSpec
  import ClubProperties

  /** getAllUsersAdmin: every user, the caller included, for a system ADMIN only. */
  function GetAllUsersAdmin(users: seq<User>, caller: User): (r: Result<seq<UserResponseDTO>>)
    ensures r.Err? <==> caller.role != Role.ADMIN
    ensures r.Err? ==> r.error == Unauthorized
    ensures r.Ok? ==> |r.value| == |users| &&
                      forall i :: 0 <= i < |users| ==> r.value[i] == UserService.ConvertToUserResponseDTO(users[i])
  {
    if caller.role != Role.ADMIN then Err(Unauthorized)
    else Ok(UserService.ConvertAll(users))
  }

  /**
    deleteUser: a system ADMIN deletes another stored user; deleting oneself is
    refused. The user's user_club rows go with the user, through the user
    entity's memberships relation (modelled on the Club.members cascade).
   */
  function DeleteUser(db: Db, userId: UserId, caller: User): (r: ClubSpec.Step<()>)
    ensures r.result == Err(Unauthorized) <==>
              caller.role != Role.ADMIN || (UserRepo.ExistsById(db.users, userId) && userId == caller.id)
    ensures r.result == Err(ResourceNotFound) <==>
              caller.role == Role.ADMIN && !UserRepo.ExistsById(db.users, userId)
    ensures r.result.Err? ==> r.result.error != BadRequest && r.db == db
    ensures r.result.Ok? ==>
              r.db == db.(users := UserRepo.Delete(db.users, userId),
                          userClubs := UserClubRepo.DeleteByUserId(db.userClubs, userId))
  {
    if caller.role != Role.ADMIN then ClubSpec.Step(Err(Unauthorized), db)
    else
      match UserRepo.FindById(db.users, userId)
      case None => ClubSpec.Step(Err(ResourceNotFound), db)
      case Some(user) =>
        if userId == caller.id then ClubSpec.Step(Err(Unauthorized), db)
        else ClubSpec.Step(Ok(()), db.(users := UserRepo.Delete(db.users, user.id),
                                       userClubs := UserClubRepo.DeleteByUserId(db.userClubs, user.id)))
  }

  /** deleteClubAdmin: a system ADMIN deletes a club by id; its memberships go by cascade. */
  function DeleteClubAdmin(db: Db, clubId: ClubId, caller: User): (r: ClubSpec.Step<()>)
    ensures r.result == Err(Unauthorized) <==> caller.role != Role.ADMIN
    ensures r.result == Err(ResourceNotFound) <==>
              caller.role == Role.ADMIN && !ClubRepo.ExistsById(db.clubs, clubId)
    ensures r.result.Err? ==> r.result.error != BadRequest && r.db == db
    ensures r.result.Ok? ==>
              r.db == db.(clubs := ClubRepo.DeleteById(db.clubs, clubId),
                          userClubs := UserClubRepo.DeleteByClubId(db.userClubs, clubId))
  {
    if caller.role != Role.ADMIN then ClubSpec.Step(Err(Unauthorized), db)
    else if !ClubRepo.ExistsById(db.clubs, clubId) then ClubSpec.Step(Err(ResourceNotFound), db)
    else ClubSpec.Step(Ok(()), db.(clubs := ClubRepo.DeleteById(db.clubs, clubId),
                                   userClubs := UserClubRepo.DeleteByClubId(db.userClubs, clubId)))
  }

  /**
    Deleting a user keeps the store's constraints and removes exactly that one
    user row and the user's memberships; every other user stays, and so does
    every club and every other user's membership.
   */
  lemma DeleteUserRemovesOne(db: Db, userId: UserId, caller: User)
    requires WellFormed(db)
    ensures var r := DeleteUser(db, userId, caller);
            && WellFormed(r.db)
            && (r.result.Ok? ==>
                  && !UserRepo.ExistsById(r.db.users, userId)
                  && |r.db.users| == |db.users| - 1
                  && (forall u :: u in db.users && u.id != userId ==> u in r.db.users)
                  && r.db.clubs == db.clubs
                  && (forall m :: m in r.db.userClubs <==> m in db.userClubs && m.userId != userId))
  {
    var r := DeleteUser(db, userId, caller);
    if r.result.Ok? {
      DeleteUserWellFormed(db, userId);
      var u := UserRepo.FindById(db.users, userId).value;
      UserRepo.DeleteOne(db.users, u);
    }
  }

  /**
    After a user is deleted, a club still has an admin exactly when some admin
    row of the club belongs to somebody else. Nothing in deleteUser checks
    this, so the only admin of a club can be deleted and the club is left with
    none.
   */
  lemma DeleteUserKeepsAdminIff(db: Db, userId: UserId, caller: User, clubId: ClubId)
    requires DeleteUser(db, userId, caller).result.Ok?
    ensures var after := DeleteUser(db, userId, caller).db.userClubs;
            |UserClubRepo.FindAdminsByClubId(after, clubId)| > 0 <==>
            exists m :: m in UserClubRepo.FindAdminsByClubId(db.userClubs, clubId) && m.userId != userId
  {
    var after := UserClubRepo.DeleteByUserId(db.userClubs, userId);
    var admins := UserClubRepo.FindAdminsByClubId(after, clubId);
    if |admins| > 0 {
      assert admins[0] in admins;
    }
    if m :| m in UserClubRepo.FindAdminsByClubId(db.userClubs, clubId) && m.userId != userId {
      assert m in admins;
    }
  }

  /**
    From a consistent store, a system ADMIN deletes another user who holds
    every admin row of a club: the call succeeds and that club has no admin left.
   */
  lemma DeleteSoleAdminOrphansClub(db: Db, club: Club, admin: User, caller: User)
    requires ClubSpec.Consistent(db)
    requires club in db.clubs && admin in db.users
    requires caller.role == Role.ADMIN && caller.id != admin.id
    requires forall m :: m in UserClubRepo.FindAdminsByClubId(db.userClubs, club.id) ==> m.userId == admin.id
    ensures var r := DeleteUser(db, admin.id, caller);
            && r.result == Ok(())
            && club in r.db.clubs
            && UserClubRepo.FindAdminsByClubId(r.db.userClubs, club.id) == []
            && !ClubSpec.EveryClubHasAdmin(r.db)
  {
    var r := DeleteUser(db, admin.id, caller);
    DeleteUserKeepsAdminIff(db, admin.id, caller, club.id);
  }

  /**
    The two ways to delete a club agree for a system ADMIN. They differ only
    on a missing club asked for by anyone else: deleteClub looks the club up
    first and answers ResourceNotFound, deleteClubAdmin checks the role first
    and answers Unauthorized.
   */
  lemma ClubDeletesAgree(db: Db, clubId: ClubId, caller: User)
    ensures caller.role == Role.ADMIN ==> DeleteClubAdmin(db, clubId, caller) == ClubSpec.DeleteClub(db, clubId, caller)
    ensures DeleteClubAdmin(db, clubId, caller) != ClubSpec.DeleteClub(db, clubId, caller) <==>
              caller.role != Role.ADMIN && !ClubRepo.ExistsById(db.clubs, clubId)
  {
  }

  /** deleteClubAdmin keeps the store consistent, as deleteClub does. */
  lemma DeleteClubAdminKeepsConsistent(db: Db, clubId: ClubId, caller: User)
    requires ClubSpec.Consistent(db)
    ensures ClubSpec.Consistent(DeleteClubAdmin(db, clubId, caller).db)
  {
    ClubProperties.DeleteClubKeepsConsistent(db, clubId, caller);
  }
}

/** The administrator's writes as they run against the store. */
module AdminService {
  import opened Model
  import opened Store
  import UserRepo
  import ClubRepo
  import ClubSpec
  import AdminSpec

  /** deleteUser: role check, lookup, self check, then the user is deleted with the user's rows. */
  method DeleteUser(store: Database, userId: UserId, caller: User) returns (r: Result<()>)
    requires store.Valid()
    modifies store
    ensures store.Valid()
    ensures ClubSpec.Step(r, store.Snapshot()) == AdminSpec.DeleteUser(old(store.Snapshot()), userId, caller)
  {
    if caller.role != Role.ADMIN {
      return Err(Unauthorized);
    }
    var found := UserRepo.FindById(store.users, userId);
    if found.None? {
      return Err(ResourceNotFound);
    }
    if userId == caller.id {
      return Err(Unauthorized);
    }
    store.DeleteUser(found.value.id);
    r := Ok(());
  }

  /** deleteClubAdmin: role check, existence check, then the club is deleted by id. */
  method DeleteClubAdmin(store: Database, clubId: ClubId, caller: User) returns (r: Result<()>)
    requires store.Valid()
    modifies store
    ensures store.Valid()
    ensures ClubSpec.Step(r, store.Snapshot()) == AdminSpec.DeleteClubAdmin(old(store.Snapshot()), clubId, caller)
    ensures ClubSpec.EveryClubHasAdmin(old(store.Snapshot())) ==> ClubSpec.EveryClubHasAdmin(store.Snapshot())
  {
    ghost var before := store.Snapshot();
    if caller.role != Role.ADMIN {
      return Err(Unauthorized);
    }
    if !ClubRepo.ExistsById(store.clubs, clubId) {
      return Err(ResourceNotFound);
    }
    store.DeleteClub(clubId);
    r := Ok(());
    if ClubSpec.EveryClubHasAdmin(before) {
      AdminSpec.DeleteClubAdminKeepsConsistent(before, clubId, caller);
    }
  }
}
