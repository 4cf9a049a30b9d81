/**
  The club service as it runs: each operation reads the store through the
  repository queries and writes it through the store's save and delete
  methods, in the order the service performs them. Each method is proved to
  end in the state, and return the result, that ClubSpec gives for the same
  call, and to keep the store's constraints and its every-club-has-an-admin
  property.
 */
module ClubService {
  import opened Model
  import opened Dto
  import opened Store
  import ClubSpec
  import ClubProperties
  import UserRepo
  import ClubRepo
  import UserClubRepo

  /**
    createClub: save the club, then the creator's ADMIN membership; return the
    club's view. The creator, like every caller, is the stored user the
    controller loads by the principal's username.
   */
  method CreateClub(store: Database, dto: ClubCreateDTO, creator: User, now: Time) returns (detail: ClubDetailDTO)
    requires store.Valid() && IsValid(dto) && UserRepo.ExistsById(store.users, creator.id)
    modifies store
    ensures store.Valid()
    ensures ClubSpec.Step(Ok(detail), store.Snapshot()) == ClubSpec.CreateClub(old(store.Snapshot()), dto, creator, now)
    ensures ClubSpec.EveryClubHasAdmin(old(store.Snapshot())) ==> ClubSpec.EveryClubHasAdmin(store.Snapshot())
  {
    ghost var before := store.Snapshot();
    var club := ClubSpec.NewClub(dto, creator);
    var savedClub := store.SaveNewClub(club);
    FreshClubHasNoRows(before, savedClub.id);
    assert store.Snapshot() == before.(clubs := before.clubs + [savedClub], nextClubId := before.nextClubId + 1);
    assert !UserClubRepo.HasMembership(store.userClubs, creator.id, savedClub.id);
    assert savedClub in store.clubs;
    var membership := UserClub(0, creator.id, savedClub.id, ClubRole.ADMIN, now);
    var saved := store.SaveNewUserClub(membership);
    assert saved.Some?;
    ghost var spec := ClubSpec.CreateClub(before, dto, creator, now);
    assert store.Snapshot() == spec.db;
    detail := ClubSpec.ConvertToClubDetailDTO(store.userClubs, savedClub);
    if ClubSpec.EveryClubHasAdmin(before) {
      ClubProperties.CreateClubKeepsConsistent(before, dto, creator, now);
    }
  }

  /** The field-by-field overwrite of updateClub: each non-null field of the request replaces the club's. */
  method Patch(current: Club, dto: ClubUpdateDTO) returns (club: Club)
    ensures club == ClubSpec.ApplyUpdate(current, dto)
  {
    club := current;
    if dto.name.Some? {
      club := club.(name := dto.name.value);
    }
    if dto.description.Some? {
      club := club.(description := dto.description.value);
    }
    if dto.category.Some? {
      club := club.(category := dto.category.value);
    }
    if dto.free.Some? {
      club := club.(free := dto.free.value);
    }
    if dto.price.Some? {
      club := club.(price := dto.price);
    }
  }

  /** updateClub: a club admin's non-null fields overwrite the club's, then the club is saved. */
  method UpdateClub(store: Database, clubId: ClubId, dto: ClubUpdateDTO, caller: User)
    returns (r: Result<ClubDetailDTO>)
    requires store.Valid()
    modifies store
    ensures store.Valid()
    ensures ClubSpec.Step(r, store.Snapshot()) == ClubSpec.UpdateClub(old(store.Snapshot()), clubId, dto, caller)
    ensures ClubSpec.EveryClubHasAdmin(old(store.Snapshot())) ==> ClubSpec.EveryClubHasAdmin(store.Snapshot())
  {
    ghost var before := store.Snapshot();
    var found := ClubRepo.FindById(store.clubs, clubId);
    if found.None? {
      return Err(ResourceNotFound);
    }
    if !ClubSpec.IsUserClubAdmin(store.userClubs, clubId, caller.id) {
      return Err(Unauthorized);
    }
    var club := Patch(found.value, dto);
    store.SaveClub(club);
    r := Ok(ClubSpec.ConvertToClubDetailDTO(store.userClubs, club));
    if ClubSpec.EveryClubHasAdmin(before) {
      ClubProperties.UpdateClubKeepsConsistent(before, clubId, dto, caller);
    }
  }

  /** deleteClub: a system ADMIN deletes the club; its memberships go by cascade. */
  method DeleteClub(store: Database, clubId: ClubId, caller: User) returns (r: Result<()>)
    requires store.Valid()
    modifies store
    ensures store.Valid()
    ensures ClubSpec.Step(r, store.Snapshot()) == ClubSpec.DeleteClub(old(store.Snapshot()), clubId, caller)
    ensures ClubSpec.EveryClubHasAdmin(old(store.Snapshot())) ==> ClubSpec.EveryClubHasAdmin(store.Snapshot())
  {
    ghost var before := store.Snapshot();
    var found := ClubRepo.FindById(store.clubs, clubId);
    if found.None? {
      return Err(ResourceNotFound);
    }
    if caller.role != Role.ADMIN {
      return Err(Unauthorized);
    }
    store.DeleteClub(found.value.id);
    r := Ok(());
    if ClubSpec.EveryClubHasAdmin(before) {
      ClubProperties.DeleteClubKeepsConsistent(before, clubId, caller);
    }
  }

  /** joinClub: a user not yet in the club is saved as a MEMBER. */
  method JoinClub(store: Database, clubId: ClubId, user: User, now: Time) returns (r: Result<()>)
    requires store.Valid() && UserRepo.ExistsById(store.users, user.id)
    modifies store
    ensures store.Valid()
    ensures ClubSpec.Step(r, store.Snapshot()) == ClubSpec.JoinClub(old(store.Snapshot()), clubId, user, now)
    ensures ClubSpec.EveryClubHasAdmin(old(store.Snapshot())) ==> ClubSpec.EveryClubHasAdmin(store.Snapshot())
  {
    ghost var before := store.Snapshot();
    var found := ClubRepo.FindById(store.clubs, clubId);
    if found.None? {
      return Err(ResourceNotFound);
    }
    if UserClubRepo.FindByUserIdAndClubId(store.userClubs, user.id, clubId).Some? {
      return Err(BadRequest);
    }
    var membership := UserClub(0, user.id, found.value.id, ClubRole.MEMBER, now);
    var saved := store.SaveNewUserClub(membership);
    r := Ok(());
    if ClubSpec.EveryClubHasAdmin(before) {
      ClubProperties.JoinClubKeepsConsistent(before, clubId, user, now);
    }
  }

  /** leaveClub: the caller's membership is deleted unless it is the club's only admin row. */
  method LeaveClub(store: Database, clubId: ClubId, user: User) returns (r: Result<()>)
    requires store.Valid()
    modifies store
    ensures store.Valid()
    ensures ClubSpec.Step(r, store.Snapshot()) == ClubSpec.LeaveClub(old(store.Snapshot()), clubId, user)
    ensures ClubSpec.EveryClubHasAdmin(old(store.Snapshot())) ==> ClubSpec.EveryClubHasAdmin(store.Snapshot())
  {
    ghost var before := store.Snapshot();
    var found := UserClubRepo.FindByUserIdAndClubId(store.userClubs, user.id, clubId);
    if found.None? {
      return Err(ResourceNotFound);
    }
    var membership := found.value;
    var admins := UserClubRepo.FindAdminsByClubId(store.userClubs, clubId);
    if |admins| == 1 && admins[0].id == membership.id {
      return Err(BadRequest);
    }
    store.DeleteUserClub(membership);
    r := Ok(());
    if ClubSpec.EveryClubHasAdmin(before) {
      ClubProperties.LeaveClubKeepsConsistent(before, clubId, user);
    }
  }

  /** promoteMember: a club admin sets another member's club role to ADMIN and saves the row. */
  method PromoteMember(store: Database, clubId: ClubId, userId: UserId, caller: User) returns (r: Result<()>)
    requires store.Valid()
    modifies store
    ensures store.Valid()
    ensures ClubSpec.Step(r, store.Snapshot()) == ClubSpec.PromoteMember(old(store.Snapshot()), clubId, userId, caller)
    ensures ClubSpec.EveryClubHasAdmin(old(store.Snapshot())) ==> ClubSpec.EveryClubHasAdmin(store.Snapshot())
  {
    ghost var before := store.Snapshot();
    if !ClubSpec.IsUserClubAdmin(store.userClubs, clubId, caller.id) {
      return Err(Unauthorized);
    }
    var found := UserClubRepo.FindByUserIdAndClubId(store.userClubs, userId, clubId);
    if found.None? {
      return Err(ResourceNotFound);
    }
    var membership := found.value;
    if membership.clubRole == ClubRole.ADMIN {
      return Err(BadRequest);
    }
    forall x | x in store.userClubs && x.id == membership.id
      ensures x.userId == membership.userId && x.clubId == membership.clubId
    {
      UserClubRepo.SameIdSameRow(store.userClubs, x, membership);
    }
    membership := membership.(clubRole := ClubRole.ADMIN);
    store.SaveUserClub(membership);
    r := Ok(());
    if ClubSpec.EveryClubHasAdmin(before) {
      ClubProperties.PromoteMemberKeepsConsistent(before, clubId, userId, caller);
    }
  }

  /** removeMember: a club admin deletes another member's row, with the last-admin check first. */
  method RemoveMember(store: Database, clubId: ClubId, userId: UserId, caller: User) returns (r: Result<()>)
    requires store.Valid()
    modifies store
    ensures store.Valid()
    ensures ClubSpec.Step(r, store.Snapshot()) == ClubSpec.RemoveMember(old(store.Snapshot()), clubId, userId, caller)
    ensures ClubSpec.EveryClubHasAdmin(old(store.Snapshot())) ==> ClubSpec.EveryClubHasAdmin(store.Snapshot())
  {
    ghost var before := store.Snapshot();
    if !ClubSpec.IsUserClubAdmin(store.userClubs, clubId, caller.id) {
      return Err(Unauthorized);
    }
    var found := UserClubRepo.FindByUserIdAndClubId(store.userClubs, userId, clubId);
    if found.None? {
      return Err(ResourceNotFound);
    }
    var membership := found.value;
    if userId == caller.id {
      return Err(BadRequest);
    }
    if membership.clubRole == ClubRole.ADMIN {
      var admins := UserClubRepo.FindAdminsByClubId(store.userClubs, clubId);
      if |admins| == 1 {
        return Err(BadRequest);
      }
    }
    store.DeleteUserClub(membership);
    r := Ok(());
    if ClubSpec.EveryClubHasAdmin(before) {
      ClubProperties.RemoveMemberKeepsConsistent(before, clubId, userId, caller);
    }
  }
}
