/**
  The operations of the club service as transitions of the store: each takes
  a snapshot `Db` and the request and gives what the call returns together
  with the snapshot it leaves behind. A call that throws leaves the store as
  it was (every write happens after the last check, inside one transaction).
  The imperative service in ClubService is proved equal to these functions.
 */
module ClubSpec {
  import opened Model
  import opened Dto
  import opened Store
  import UserRepo
  import ClubRepo
  import UserClubRepo

  /** What one call returns, and the store after it. */
  datatype Step<T> = Step(result: Result<T>, db: Db)

  /** The property the service's checks exist to keep: no club is ever left without an admin. */
  ghost predicate EveryClubHasAdmin(db: Db)
  {
    forall c :: c in db.clubs ==> |UserClubRepo.FindAdminsByClubId(db.userClubs, c.id)| > 0
  }

  ghost predicate Consistent(db: Db)
  {
    WellFormed(db) && EveryClubHasAdmin(db)
  }

  // ---------------------------------------------------------------------------
  // Queries and conversions

  /** isUserClubAdmin: the user's membership of the club exists and has the club role ADMIN. */
  function IsUserClubAdmin(t: seq<UserClub>, clubId: ClubId, userId: UserId): (r: bool)
    requires UserClubRepo.UniquePairs(t)
    ensures r <==> UserClubRepo.HasAdminMembership(t, userId, clubId)
  {
    UserClubRepo.FindByPairExact(t, userId, clubId);
    match UserClubRepo.FindByUserIdAndClubId(t, userId, clubId)
    case Some(uc) => uc.clubRole == ClubRole.ADMIN
    case None => false
  }

  /** convertToClubDetailDTO: the club's columns, its creator's id, and how many memberships it has. */
  function ConvertToClubDetailDTO(t: seq<UserClub>, club: Club): (r: ClubDetailDTO)
    ensures r.id == club.id && r.name == club.name && r.description == club.description
    ensures r.category == club.category && r.free == club.free && r.price == club.price
    ensures r.creatorId == club.creator
    ensures r.memberCount == |UserClubRepo.FindByClubId(t, club.id)|
  {
    ClubDetailDTO(club.id, club.name, club.description, club.category, club.free, club.price,
                  club.creator, UserClubRepo.CountByClubId(t, club.id))
  }

  /** getClubById. */
  function GetClubById(db: Db, clubId: ClubId): (r: Result<ClubDetailDTO>)
    ensures r.Err? <==> !ClubRepo.ExistsById(db.clubs, clubId)
    ensures r.Err? ==> r.error == ResourceNotFound
    ensures r.Ok? ==> r.value.id == clubId &&
                      r.value.memberCount == |UserClubRepo.FindByClubId(db.userClubs, clubId)|
  {
    match ClubRepo.FindById(db.clubs, clubId)
    case None => Err(ResourceNotFound)
    case Some(club) => Ok(ConvertToClubDetailDTO(db.userClubs, club))
  }

  function ClubDetails(t: seq<UserClub>, clubs: seq<Club>): (r: seq<ClubDetailDTO>)
    ensures |r| == |clubs|
    ensures forall i :: 0 <= i < |clubs| ==> r[i] == ConvertToClubDetailDTO(t, clubs[i])
  {
    if clubs == [] then [] else [ConvertToClubDetailDTO(t, clubs[0])] + ClubDetails(t, clubs[1..])
  }

  /** getAllClubs: one view per club, in table order. */
  function GetAllClubs(db: Db): (r: seq<ClubDetailDTO>)
    ensures |r| == |db.clubs|
    ensures forall i :: 0 <= i < |r| ==> r[i].id == db.clubs[i].id &&
                                         r[i] == ConvertToClubDetailDTO(db.userClubs, db.clubs[i])
  {
    ClubDetails(db.userClubs, db.clubs)
  }

  /** convertToMemberResponseDTO: the member's user columns, the club role by name, the join time. */
  function ConvertToMemberResponseDTO(users: seq<User>, m: UserClub): (r: MemberResponseDTO)
    requires UserRepo.ExistsById(users, m.userId)
    ensures r.userId == m.userId && r.joinedAt == m.joinedAt
    ensures ParseClubRole(r.clubRole) == Some(m.clubRole)
    ensures exists u :: u in users && u.id == m.userId &&
                        r.name == u.name && r.username == u.username && r.email == u.email
  {
    var u := UserRepo.FindById(users, m.userId).value;
    MemberResponseDTO(u.id, u.name, u.username, u.email, ClubRoleName(m.clubRole), m.joinedAt)
  }

  function MembersOf(users: seq<User>, rows: seq<UserClub>): (r: seq<MemberResponseDTO>)
    requires forall m :: m in rows ==> UserRepo.ExistsById(users, m.userId)
    ensures |r| == |rows|
    ensures forall i :: 0 <= i < |rows| ==> r[i] == ConvertToMemberResponseDTO(users, rows[i])
  {
    if rows == [] then []
    else
      assert rows[0] in rows;
      assert forall m :: m in rows[1..] ==> m in rows;
      [ConvertToMemberResponseDTO(users, rows[0])] + MembersOf(users, rows[1..])
  }

  /**
    getClubMembers: one entry per membership of the club and nothing else. Each
    membership's user must be stored: the user side of a membership is not a
    constraint of the schema model (see Store.WellFormed).
   */
  function GetClubMembers(db: Db, clubId: ClubId): (r: Result<seq<MemberResponseDTO>>)
    requires forall m :: m in UserClubRepo.FindByClubId(db.userClubs, clubId) ==>
                           UserRepo.ExistsById(db.users, m.userId)
    ensures r.Err? <==> !ClubRepo.ExistsById(db.clubs, clubId)
    ensures r.Err? ==> r.error == ResourceNotFound
    ensures r.Ok? ==> |r.value| == |UserClubRepo.FindByClubId(db.userClubs, clubId)|
    ensures r.Ok? ==> forall m :: m in UserClubRepo.FindByClubId(db.userClubs, clubId) ==>
                                   ConvertToMemberResponseDTO(db.users, m) in r.value
    ensures r.Ok? ==> forall x :: x in r.value ==>
                        exists m :: m in UserClubRepo.FindByClubId(db.userClubs, clubId) &&
                                    x == ConvertToMemberResponseDTO(db.users, m)
  {
    if !ClubRepo.ExistsById(db.clubs, clubId) then Err(ResourceNotFound)
    else
      var rows := UserClubRepo.FindByClubId(db.userClubs, clubId);
      var r := MembersOf(db.users, rows);
      assert forall m :: m in rows ==> exists i :: 0 <= i < |rows| && rows[i] == m;
      assert forall x :: x in r ==> exists i :: 0 <= i < |r| && r[i] == x;
      Ok(r)
  }

  // ---------------------------------------------------------------------------
  // Transitions

  /** The club a valid creation request describes, before the store gives it an id. */
  function NewClub(dto: ClubCreateDTO, creator: User): Club
    requires IsValid(dto)
  {
    Club(0, dto.name.value, dto.description.value, dto.category.value, dto.free.value,
         dto.price, Some(creator.id))
  }

  /**
    createClub: stores the club with the next club id, then the creator's
    ADMIN membership, and returns the new club's view, whose member count is 1.
   */
  function CreateClub(db: Db, dto: ClubCreateDTO, creator: User, now: Time): (r: Step<ClubDetailDTO>)
    requires WellFormed(db) && IsValid(dto)
    ensures r.result.Ok?
    ensures !ClubRepo.ExistsById(db.clubs, db.nextClubId)
    ensures r.db.users == db.users
    ensures r.db.clubs == db.clubs + [NewClub(dto, creator).(id := db.nextClubId)]
    ensures r.db.userClubs ==
            db.userClubs + [UserClub(db.nextUserClubId, creator.id, db.nextClubId, ClubRole.ADMIN, now)]
    ensures r.result.value.id == db.nextClubId && r.result.value.memberCount == 1
    ensures r.result.value.creatorId == Some(creator.id)
  {
    var club := NewClub(dto, creator).(id := db.nextClubId);
    var db1 := db.(clubs := db.clubs + [club], nextClubId := db.nextClubId + 1);
    var membership := UserClub(db1.nextUserClubId, creator.id, club.id, ClubRole.ADMIN, now);
    var db2 := db1.(userClubs := db1.userClubs + [membership], nextUserClubId := db1.nextUserClubId + 1);
    FreshClubHasNoRows(db, club.id);
    UserClubRepo.FindByClubIdAppend(db1.userClubs, membership, club.id);
    Step(Ok(ConvertToClubDetailDTO(db2.userClubs, club)), db2)
  }

  /** The non-null fields of an update request overwrite the club's; the id and creator stay. */
  function ApplyUpdate(club: Club, dto: ClubUpdateDTO): (c: Club)
    ensures c.id == club.id && c.creator == club.creator
    ensures dto.name.Some? ==> c.name == dto.name.value
    ensures dto.name.None? ==> c.name == club.name
    ensures dto.description.Some? ==> c.description == dto.description.value
    ensures dto.description.None? ==> c.description == club.description
    ensures dto.category.Some? ==> c.category == dto.category.value
    ensures dto.category.None? ==> c.category == club.category
    ensures dto.free.Some? ==> c.free == dto.free.value
    ensures dto.free.None? ==> c.free == club.free
    ensures dto.price.Some? ==> c.price == dto.price
    ensures dto.price.None? ==> c.price == club.price
  {
    club.(name := if dto.name.Some? then dto.name.value else club.name,
          description := if dto.description.Some? then dto.description.value else club.description,
          category := if dto.category.Some? then dto.category.value else club.category,
          free := if dto.free.Some? then dto.free.value else club.free,
          price := if dto.price.Some? then dto.price else club.price)
  }

  /** updateClub: only an admin of the club may change it; the stored row becomes the patched club. */
  function UpdateClub(db: Db, clubId: ClubId, dto: ClubUpdateDTO, caller: User): (r: Step<ClubDetailDTO>)
    requires WellFormed(db)
    ensures r.result == Err(ResourceNotFound) <==> !ClubRepo.ExistsById(db.clubs, clubId)
    ensures r.result == Err(Unauthorized) <==>
              ClubRepo.ExistsById(db.clubs, clubId) &&
              !UserClubRepo.HasAdminMembership(db.userClubs, caller.id, clubId)
    ensures r.result.Err? ==> r.result.error != BadRequest && r.db == db
    ensures r.result.Ok? ==>
              var updated := ApplyUpdate(ClubRepo.FindById(db.clubs, clubId).value, dto);
              && r.db == db.(clubs := ClubRepo.Replace(db.clubs, updated))
              && r.result.value == ConvertToClubDetailDTO(db.userClubs, updated)
  {
    match ClubRepo.FindById(db.clubs, clubId)
    case None => Step(Err(ResourceNotFound), db)
    case Some(club) =>
      if !IsUserClubAdmin(db.userClubs, clubId, caller.id) then Step(Err(Unauthorized), db)
      else
        var updated := ApplyUpdate(club, dto);
        Step(Ok(ConvertToClubDetailDTO(db.userClubs, updated)),
             db.(clubs := ClubRepo.Replace(db.clubs, updated)))
  }

  /** deleteClub: only a system ADMIN may delete; the club's memberships go with it. */
  function DeleteClub(db: Db, clubId: ClubId, caller: User): (r: Step<()>)
    ensures r.result == Err(ResourceNotFound) <==> !ClubRepo.ExistsById(db.clubs, clubId)
    ensures r.result == Err(Unauthorized) <==> ClubRepo.ExistsById(db.clubs, clubId) && caller.role != Role.ADMIN
    ensures r.result.Err? ==> r.result.error != BadRequest && r.db == db
    ensures r.result.Ok? ==>
              r.db == db.(clubs := ClubRepo.DeleteById(db.clubs, clubId),
                          userClubs := UserClubRepo.DeleteByClubId(db.userClubs, clubId))
  {
    match ClubRepo.FindById(db.clubs, clubId)
    case None => Step(Err(ResourceNotFound), db)
    case Some(club) =>
      if caller.role != Role.ADMIN then Step(Err(Unauthorized), db)
      else Step(Ok(()), db.(clubs := ClubRepo.DeleteById(db.clubs, club.id),
                            userClubs := UserClubRepo.DeleteByClubId(db.userClubs, club.id)))
  }

  /** joinClub: a user not yet in the club gets a MEMBER row stamped with the current time. */
  function JoinClub(db: Db, clubId: ClubId, user: User, now: Time): (r: Step<()>)
    ensures r.result == Err(ResourceNotFound) <==> !ClubRepo.ExistsById(db.clubs, clubId)
    ensures r.result == Err(BadRequest) <==>
              ClubRepo.ExistsById(db.clubs, clubId) && UserClubRepo.HasMembership(db.userClubs, user.id, clubId)
    ensures r.result.Err? ==> r.result.error != Unauthorized && r.db == db
    ensures r.result.Ok? ==>
              r.db == db.(userClubs := db.userClubs +
                                       [UserClub(db.nextUserClubId, user.id, clubId, ClubRole.MEMBER, now)],
                          nextUserClubId := db.nextUserClubId + 1)
  {
    match ClubRepo.FindById(db.clubs, clubId)
    case None => Step(Err(ResourceNotFound), db)
    case Some(club) =>
      if UserClubRepo.FindByUserIdAndClubId(db.userClubs, user.id, clubId).Some? then Step(Err(BadRequest), db)
      else
        var membership := UserClub(db.nextUserClubId, user.id, club.id, ClubRole.MEMBER, now);
        Step(Ok(()), db.(userClubs := db.userClubs + [membership], nextUserClubId := db.nextUserClubId + 1))
  }

  /**
    The guard of leaveClub compares the single admin's row id with the caller's
    membership id; with distinct ids and unique pairs that is the same as "the
    caller is an admin of the club and its only one".
   */
  lemma LeaveGuard(t: seq<UserClub>, userId: UserId, clubId: ClubId, membership: UserClub)
    requires UserClubRepo.DistinctIds(t) && UserClubRepo.UniquePairs(t)
    requires UserClubRepo.FindByUserIdAndClubId(t, userId, clubId) == Some(membership)
    ensures var admins := UserClubRepo.FindAdminsByClubId(t, clubId);
            (|admins| == 1 && admins[0].id == membership.id) <==>
            (UserClubRepo.HasAdminMembership(t, userId, clubId) && |admins| == 1)
  {
    var admins := UserClubRepo.FindAdminsByClubId(t, clubId);
    UserClubRepo.FindByPairExact(t, userId, clubId);
    if |admins| == 1 && admins[0].id == membership.id {
      assert admins[0] in admins;
      UserClubRepo.SameIdSameRow(t, admins[0], membership);
    }
    if UserClubRepo.HasAdminMembership(t, userId, clubId) && |admins| == 1 {
      var a :| a in t && a.userId == userId && a.clubId == clubId && a.clubRole == ClubRole.ADMIN;
      assert a in admins;
    }
  }

  /** leaveClub: the caller's membership goes, unless the caller is the club's last admin. */
  function LeaveClub(db: Db, clubId: ClubId, user: User): (r: Step<()>)
    requires WellFormed(db)
    ensures r.result == Err(ResourceNotFound) <==> !UserClubRepo.HasMembership(db.userClubs, user.id, clubId)
    ensures r.result == Err(BadRequest) <==>
              UserClubRepo.HasAdminMembership(db.userClubs, user.id, clubId) &&
              |UserClubRepo.FindAdminsByClubId(db.userClubs, clubId)| == 1
    ensures r.result.Err? ==> r.result.error != Unauthorized && r.db == db
    ensures r.result.Ok? ==>
              && r.db == db.(userClubs := r.db.userClubs)
              && forall m :: m in r.db.userClubs <==>
                               m in db.userClubs && !(m.userId == user.id && m.clubId == clubId)
  {
    match UserClubRepo.FindByUserIdAndClubId(db.userClubs, user.id, clubId)
    case None => Step(Err(ResourceNotFound), db)
    case Some(membership) =>
      var admins := UserClubRepo.FindAdminsByClubId(db.userClubs, clubId);
      LeaveGuard(db.userClubs, user.id, clubId, membership);
      if |admins| == 1 && admins[0].id == membership.id then Step(Err(BadRequest), db)
      else
        UserClubRepo.DeleteExactlyPair(db.userClubs, membership);
        Step(Ok(()), db.(userClubs := UserClubRepo.Delete(db.userClubs, membership.id)))
  }

  /** promoteMember: a club admin raises a plain member of the club to ADMIN; nothing else changes. */
  function PromoteMember(db: Db, clubId: ClubId, userId: UserId, caller: User): (r: Step<()>)
    requires WellFormed(db)
    ensures r.result == Err(Unauthorized) <==> !UserClubRepo.HasAdminMembership(db.userClubs, caller.id, clubId)
    ensures r.result == Err(ResourceNotFound) <==>
              UserClubRepo.HasAdminMembership(db.userClubs, caller.id, clubId) &&
              !UserClubRepo.HasMembership(db.userClubs, userId, clubId)
    ensures r.result == Err(BadRequest) <==>
              UserClubRepo.HasAdminMembership(db.userClubs, caller.id, clubId) &&
              UserClubRepo.HasAdminMembership(db.userClubs, userId, clubId)
    ensures r.result.Err? ==> r.db == db
    ensures r.result.Ok? ==>
              && r.db == db.(userClubs := r.db.userClubs)
              && |r.db.userClubs| == |db.userClubs|
              && forall i :: 0 <= i < |db.userClubs| ==>
                   r.db.userClubs[i] ==
                   if db.userClubs[i].userId == userId && db.userClubs[i].clubId == clubId
                   then db.userClubs[i].(clubRole := ClubRole.ADMIN) else db.userClubs[i]
  {
    if !IsUserClubAdmin(db.userClubs, clubId, caller.id) then Step(Err(Unauthorized), db)
    else
      match UserClubRepo.FindByUserIdAndClubId(db.userClubs, userId, clubId)
      case None => Step(Err(ResourceNotFound), db)
      case Some(membership) =>
        UserClubRepo.FindByPairExact(db.userClubs, userId, clubId);
        if membership.clubRole == ClubRole.ADMIN then Step(Err(BadRequest), db)
        else
          var promoted := membership.(clubRole := ClubRole.ADMIN);
          UserClubRepo.ReplaceExactlyPair(db.userClubs, membership, promoted);
          Step(Ok(()), db.(userClubs := UserClubRepo.Replace(db.userClubs, promoted)))
  }

  /**
    When the caller is an admin of the club and the target is another ADMIN
    member of it, the club has at least two admins: the caller and the target.
   */
  lemma OtherAdminLeavesOne(t: seq<UserClub>, clubId: ClubId, callerId: UserId, target: UserClub)
    requires UserClubRepo.HasAdminMembership(t, callerId, clubId)
    requires target in t && target.clubId == clubId && target.userId != callerId
    ensures target.clubRole == ClubRole.ADMIN ==> |UserClubRepo.FindAdminsByClubId(t, clubId)| >= 2
  {
    var a :| a in t && a.userId == callerId && a.clubId == clubId && a.clubRole == ClubRole.ADMIN;
    var admins := UserClubRepo.FindAdminsByClubId(t, clubId);
    if target.clubRole == ClubRole.ADMIN {
      assert a in admins && target in admins;
      var i :| 0 <= i < |admins| && admins[i] == a;
      var j :| 0 <= j < |admins| && admins[j] == target;
      assert i != j;
    }
  }

  /**
    removeMember: a club admin removes another member. The last-admin check
    never fires: the caller is an admin and not the target, so a target
    that is an ADMIN is never the only one (OtherAdminLeavesOne). The only
    BadRequest is an attempt to remove oneself.
   */
  function RemoveMember(db: Db, clubId: ClubId, userId: UserId, caller: User): (r: Step<()>)
    requires WellFormed(db)
    ensures r.result == Err(Unauthorized) <==> !UserClubRepo.HasAdminMembership(db.userClubs, caller.id, clubId)
    ensures r.result == Err(ResourceNotFound) <==>
              UserClubRepo.HasAdminMembership(db.userClubs, caller.id, clubId) &&
              !UserClubRepo.HasMembership(db.userClubs, userId, clubId)
    ensures r.result == Err(BadRequest) <==>
              UserClubRepo.HasAdminMembership(db.userClubs, caller.id, clubId) && userId == caller.id
    ensures r.result.Err? ==> r.db == db
    ensures r.result.Ok? ==>
              && r.db == db.(userClubs := r.db.userClubs)
              && forall m :: m in r.db.userClubs <==>
                               m in db.userClubs && !(m.userId == userId && m.clubId == clubId)
  {
    if !IsUserClubAdmin(db.userClubs, clubId, caller.id) then Step(Err(Unauthorized), db)
    else
      match UserClubRepo.FindByUserIdAndClubId(db.userClubs, userId, clubId)
      case None => Step(Err(ResourceNotFound), db)
      case Some(membership) =>
        if userId == caller.id then Step(Err(BadRequest), db)
        else
          OtherAdminLeavesOne(db.userClubs, clubId, caller.id, membership);
          if membership.clubRole == ClubRole.ADMIN &&
             |UserClubRepo.FindAdminsByClubId(db.userClubs, clubId)| == 1 then Step(Err(BadRequest), db)
          else
            UserClubRepo.DeleteExactlyPair(db.userClubs, membership);
            Step(Ok(()), db.(userClubs := UserClubRepo.Delete(db.userClubs, membership.id)))
  }
}

/**
  What the club service promises across calls: each transition keeps the
  store consistent (in particular, every club keeps an admin), and its effect
  is visible to the queries that follow.
 */
module ClubProperties {
  import opened Model
  import opened Dto
  import opened Store
  import opened ClubSpec
  import ClubRepo
  import UserClubRepo

  /** Creating a club keeps the store consistent; the creator is a stored user, as the security principal is. */
  lemma CreateClubKeepsConsistent(db: Db, dto: ClubCreateDTO, creator: User, now: Time)
    requires Consistent(db) && IsValid(dto) && UserRepo.ExistsById(db.users, creator.id)
    ensures Consistent(CreateClub(db, dto, creator, now).db)
  {
    var r := CreateClub(db, dto, creator, now);
    var club := NewClub(dto, creator).(id := db.nextClubId);
    var db1 := db.(clubs := db.clubs + [club], nextClubId := db.nextClubId + 1);
    var membership := UserClub(db.nextUserClubId, creator.id, club.id, ClubRole.ADMIN, now);
    assert r.db == db1.(userClubs := db1.userClubs + [membership], nextUserClubId := db1.nextUserClubId + 1);
    InsertClubWellFormed(db, NewClub(dto, creator));
    FreshClubHasNoRows(db, club.id);
    assert club in db1.clubs;
    InsertUserClubWellFormed(db1, membership);
    AdminRowKeepsAdmins(db.clubs, db.userClubs, club, membership);
  }

  /** Adding a club together with an ADMIN row for it leaves every club with an admin. */
  lemma AdminRowKeepsAdmins(clubs: seq<Club>, t: seq<UserClub>, club: Club, membership: UserClub)
    requires forall c :: c in clubs ==> |UserClubRepo.FindAdminsByClubId(t, c.id)| > 0
    requires membership.clubId == club.id && membership.clubRole == ClubRole.ADMIN
    ensures forall c :: c in clubs + [club] ==> |UserClubRepo.FindAdminsByClubId(t + [membership], c.id)| > 0
  {
    forall c | c in clubs + [club]
      ensures |UserClubRepo.FindAdminsByClubId(t + [membership], c.id)| > 0
    {
      UserClubRepo.FindAdminsAppend(t, membership, c.id);
    }
  }

  /** A new club is readable at once, has exactly one admin, and that admin is its creator. */
  lemma CreateClubMakesCreatorSoleAdmin(db: Db, dto: ClubCreateDTO, creator: User, now: Time)
    requires Consistent(db) && IsValid(dto)
    ensures var r := CreateClub(db, dto, creator, now);
            && GetClubById(r.db, db.nextClubId) == Ok(r.result.value)
            && UserClubRepo.FindAdminsByClubId(r.db.userClubs, db.nextClubId) ==
               [UserClub(db.nextUserClubId, creator.id, db.nextClubId, ClubRole.ADMIN, now)]
  {
    var r := CreateClub(db, dto, creator, now);
    var club := NewClub(dto, creator).(id := db.nextClubId);
    var membership := UserClub(db.nextUserClubId, creator.id, club.id, ClubRole.ADMIN, now);
    ClubRepo.AppendKeepsDistinct(db.clubs, club);
    assert club in r.db.clubs;
    ClubRepo.FindByIdUnique(r.db.clubs, club);
    FreshClubHasNoRows(db, club.id);
    UserClubRepo.FindAdminsAppend(db.userClubs, membership, club.id);
  }

  /** An update keeps the store consistent, and the club then reads back as the update returned it. */
  lemma UpdateClubKeepsConsistent(db: Db, clubId: ClubId, dto: ClubUpdateDTO, caller: User)
    requires Consistent(db)
    ensures var r := UpdateClub(db, clubId, dto, caller);
            && Consistent(r.db)
            && (r.result.Ok? ==> GetClubById(r.db, clubId) == Ok(r.result.value))
  {
    var r := UpdateClub(db, clubId, dto, caller);
    if r.result.Ok? {
      var updated := ApplyUpdate(ClubRepo.FindById(db.clubs, clubId).value, dto);
      ReplaceClubWellFormed(db, updated);
      ClubRepo.ReplaceKeepsOthers(db.clubs, updated);
      ClubRepo.ReplaceThenFind(db.clubs, updated);
    }
  }

  /** Sending the same update twice leaves the store as sending it once, and returns the same view. */
  lemma UpdateClubIdempotent(db: Db, clubId: ClubId, dto: ClubUpdateDTO, caller: User)
    requires WellFormed(db)
    ensures WellFormed(UpdateClub(db, clubId, dto, caller).db)
    ensures var r := UpdateClub(db, clubId, dto, caller);
            r.result.Ok? ==> UpdateClub(r.db, clubId, dto, caller) == r
  {
    var r := UpdateClub(db, clubId, dto, caller);
    if r.result.Ok? {
      var updated := ApplyUpdate(ClubRepo.FindById(db.clubs, clubId).value, dto);
      ReplaceClubWellFormed(db, updated);
      ClubRepo.ReplaceThenFind(db.clubs, updated);
      ClubRepo.ReplaceTwice(db.clubs, updated);
      assert ApplyUpdate(updated, dto) == updated;
    }
  }

  /**
    Deleting a club keeps the store consistent; the club and all its
    memberships are gone, and every other club with its members is untouched.
   */
  lemma DeleteClubKeepsConsistent(db: Db, clubId: ClubId, caller: User)
    requires Consistent(db)
    ensures var r := DeleteClub(db, clubId, caller);
            && Consistent(r.db)
            && (r.result.Ok? ==>
                  && GetClubById(r.db, clubId) == Err(ResourceNotFound)
                  && UserClubRepo.FindByClubId(r.db.userClubs, clubId) == []
                  && forall c :: c in db.clubs && c.id != clubId ==>
                       c in r.db.clubs &&
                       UserClubRepo.FindByClubId(r.db.userClubs, c.id) == UserClubRepo.FindByClubId(db.userClubs, c.id))
  {
    var r := DeleteClub(db, clubId, caller);
    if r.result.Ok? {
      DeleteClubWellFormed(db, clubId);
      forall c | c in r.db.clubs
        ensures |UserClubRepo.FindAdminsByClubId(r.db.userClubs, c.id)| > 0
      {
        UserClubRepo.FindAdminsDeleteByClubId(db.userClubs, clubId, c.id);
      }
      UserClubRepo.FindByClubIdNone(r.db.userClubs, clubId);
      forall c | c in db.clubs && c.id != clubId
        ensures UserClubRepo.FindByClubId(r.db.userClubs, c.id) == UserClubRepo.FindByClubId(db.userClubs, c.id)
      {
        UserClubRepo.FindByClubIdDeleteByClubId(db.userClubs, clubId, c.id);
      }
    }
  }

  /**
    Joining keeps the store consistent: the joining user is a stored user, and
    the new row is a MEMBER row, so no club loses an admin.
   */
  lemma JoinClubKeepsConsistent(db: Db, clubId: ClubId, user: User, now: Time)
    requires Consistent(db) && UserRepo.ExistsById(db.users, user.id)
    ensures Consistent(JoinClub(db, clubId, user, now).db)
  {
    var r := JoinClub(db, clubId, user, now);
    if r.result.Ok? {
      var membership := UserClub(db.nextUserClubId, user.id, clubId, ClubRole.MEMBER, now);
      InsertUserClubWellFormed(db, membership);
      forall c | c in r.db.clubs
        ensures |UserClubRepo.FindAdminsByClubId(r.db.userClubs, c.id)| > 0
      {
        UserClubRepo.FindAdminsAppend(db.userClubs, membership, c.id);
      }
    }
  }

  /**
    A successful join adds one member and no admin to the club, and the same
    user joining again is refused.
   */
  lemma JoinClubAddsOneMember(db: Db, clubId: ClubId, user: User, now: Time, later: Time)
    requires WellFormed(db) && JoinClub(db, clubId, user, now).result.Ok?
    ensures var r := JoinClub(db, clubId, user, now);
            && |UserClubRepo.FindByClubId(r.db.userClubs, clubId)| ==
               |UserClubRepo.FindByClubId(db.userClubs, clubId)| + 1
            && (forall c :: UserClubRepo.FindAdminsByClubId(r.db.userClubs, c) ==
                            UserClubRepo.FindAdminsByClubId(db.userClubs, c))
            && JoinClub(r.db, clubId, user, later).result == Err(BadRequest)
  {
    var r := JoinClub(db, clubId, user, now);
    var membership := UserClub(db.nextUserClubId, user.id, clubId, ClubRole.MEMBER, now);
    forall c
      ensures UserClubRepo.FindAdminsByClubId(r.db.userClubs, c) == UserClubRepo.FindAdminsByClubId(db.userClubs, c)
    {
      UserClubRepo.FindAdminsAppend(db.userClubs, membership, c);
    }
    UserClubRepo.FindByClubIdAppend(db.userClubs, membership, clubId);
    assert membership in r.db.userClubs;
  }

  /**
    Leaving keeps the store consistent (the last admin cannot leave), and
    afterwards the user is no longer a member and the club has one member less.
   */
  lemma LeaveClubKeepsConsistent(db: Db, clubId: ClubId, user: User)
    requires Consistent(db)
    ensures var r := LeaveClub(db, clubId, user);
            && Consistent(r.db)
            && (r.result.Ok? ==>
                  && !UserClubRepo.HasMembership(r.db.userClubs, user.id, clubId)
                  && |UserClubRepo.FindByClubId(r.db.userClubs, clubId)| ==
                     |UserClubRepo.FindByClubId(db.userClubs, clubId)| - 1)
  {
    var r := LeaveClub(db, clubId, user);
    if r.result.Ok? {
      var t := db.userClubs;
      var m := UserClubRepo.FindByUserIdAndClubId(t, user.id, clubId).value;
      LeaveGuard(t, user.id, clubId, m);
      assert r.db.userClubs == UserClubRepo.Delete(t, m.id);
      DeleteUserClubWellFormed(db, m.id);
      forall c | c in r.db.clubs
        ensures |UserClubRepo.FindAdminsByClubId(r.db.userClubs, c.id)| > 0
      {
        UserClubRepo.FindAdminsDelete(t, m, c.id);
        if c.id == clubId && m.clubRole == ClubRole.ADMIN {
          assert UserClubRepo.HasAdminMembership(t, user.id, clubId);
        }
      }
      UserClubRepo.CountDelete(t, m, clubId);
    }
  }

  /** Promotion keeps the store consistent. */
  lemma PromoteMemberKeepsConsistent(db: Db, clubId: ClubId, userId: UserId, caller: User)
    requires Consistent(db)
    ensures Consistent(PromoteMember(db, clubId, userId, caller).db)
  {
    var r := PromoteMember(db, clubId, userId, caller);
    if r.result.Ok? {
      var t := db.userClubs;
      var m := UserClubRepo.FindByUserIdAndClubId(t, userId, clubId).value;
      var promoted := m.(clubRole := ClubRole.ADMIN);
      PromotedRow(db, clubId, userId, caller);
      forall x | x in t && x.id == promoted.id
        ensures x.userId == promoted.userId && x.clubId == promoted.clubId
      {
        UserClubRepo.SameIdSameRow(t, x, m);
      }
      ReplaceUserClubWellFormed(db, promoted);
      forall c | c in r.db.clubs
        ensures |UserClubRepo.FindAdminsByClubId(r.db.userClubs, c.id)| > 0
      {
        UserClubRepo.FindAdminsReplace(t, m, promoted, c.id);
      }
    }
  }

  /** A successful promotion overwrites the target's row, by its id, with the ADMIN role. */
  lemma PromotedRow(db: Db, clubId: ClubId, userId: UserId, caller: User)
    requires WellFormed(db)
    requires PromoteMember(db, clubId, userId, caller).result.Ok?
    ensures var m := UserClubRepo.FindByUserIdAndClubId(db.userClubs, userId, clubId).value;
            PromoteMember(db, clubId, userId, caller).db ==
            db.(userClubs := UserClubRepo.Replace(db.userClubs, m.(clubRole := ClubRole.ADMIN)))
  {
  }

  /**
    A promotion makes the target an admin of the club, raises the club's
    admin count by one and changes no member count.
   */
  lemma PromoteMemberAddsOneAdmin(db: Db, clubId: ClubId, userId: UserId, caller: User)
    requires WellFormed(db)
    requires PromoteMember(db, clubId, userId, caller).result.Ok?
    ensures var after := PromoteMember(db, clubId, userId, caller).db.userClubs;
            && UserClubRepo.HasAdminMembership(after, userId, clubId)
            && |UserClubRepo.FindAdminsByClubId(after, clubId)| ==
               |UserClubRepo.FindAdminsByClubId(db.userClubs, clubId)| + 1
            && forall c :: |UserClubRepo.FindByClubId(after, c)| == |UserClubRepo.FindByClubId(db.userClubs, c)|
  {
    var t := db.userClubs;
    var m := UserClubRepo.FindByUserIdAndClubId(t, userId, clubId).value;
    var promoted := m.(clubRole := ClubRole.ADMIN);
    PromotedRow(db, clubId, userId, caller);
    var after := UserClubRepo.Replace(t, promoted);
    UserClubRepo.FindAdminsReplace(t, m, promoted, clubId);
    forall c
      ensures |UserClubRepo.FindByClubId(after, c)| == |UserClubRepo.FindByClubId(t, c)|
    {
      UserClubRepo.CountReplace(t, m, promoted, c);
    }
    var k :| 0 <= k < |t| && t[k] == m;
    assert after[k] == promoted;
  }

  /**
    Removal keeps the store consistent (an admin removing another admin
    leaves at least the caller), and afterwards the target is no longer a member.
   */
  lemma RemoveMemberKeepsConsistent(db: Db, clubId: ClubId, userId: UserId, caller: User)
    requires Consistent(db)
    ensures var r := RemoveMember(db, clubId, userId, caller);
            && Consistent(r.db)
            && (r.result.Ok? ==>
                  && !UserClubRepo.HasMembership(r.db.userClubs, userId, clubId)
                  && |UserClubRepo.FindByClubId(r.db.userClubs, clubId)| ==
                     |UserClubRepo.FindByClubId(db.userClubs, clubId)| - 1)
  {
    var r := RemoveMember(db, clubId, userId, caller);
    if r.result.Ok? {
      var t := db.userClubs;
      var m := UserClubRepo.FindByUserIdAndClubId(t, userId, clubId).value;
      OtherAdminLeavesOne(t, clubId, caller.id, m);
      assert r.db.userClubs == UserClubRepo.Delete(t, m.id);
      DeleteUserClubWellFormed(db, m.id);
      forall c | c in r.db.clubs
        ensures |UserClubRepo.FindAdminsByClubId(r.db.userClubs, c.id)| > 0
      {
        UserClubRepo.FindAdminsDelete(t, m, c.id);
      }
      UserClubRepo.CountDelete(t, m, clubId);
    }
  }

  /** Club authority comes from club roles alone: the caller's system role does not affect an update. */
  lemma UpdateIgnoresSystemRole(db: Db, clubId: ClubId, dto: ClubUpdateDTO, caller: User, role: Role)
    requires WellFormed(db)
    ensures UpdateClub(db, clubId, dto, caller.(role := role)) == UpdateClub(db, clubId, dto, caller)
  {
  }

  /** The caller's system role does not affect a promotion. */
  lemma PromoteIgnoresSystemRole(db: Db, clubId: ClubId, userId: UserId, caller: User, role: Role)
    requires WellFormed(db)
    ensures PromoteMember(db, clubId, userId, caller.(role := role)) == PromoteMember(db, clubId, userId, caller)
  {
  }

  /** The caller's system role does not affect a removal. */
  lemma RemoveIgnoresSystemRole(db: Db, clubId: ClubId, userId: UserId, caller: User, role: Role)
    requires WellFormed(db)
    ensures RemoveMember(db, clubId, userId, caller.(role := role)) == RemoveMember(db, clubId, userId, caller)
  {
  }

  /** deleteClub asks for the system role only: the club roles do not affect whether it succeeds. */
  lemma DeleteIgnoresClubRoles(db: Db, clubId: ClubId, caller: User, t: seq<UserClub>)
    ensures DeleteClub(db.(userClubs := t), clubId, caller).result == DeleteClub(db, clubId, caller).result
  {
  }

  /**
    A creates a club, B joins it, A removes B: both calls succeed and B is out.
    A is then the club's only admin, so A's attempt to leave is refused and
    changes nothing.
   */
  lemma LastAdminScenario(db: Db, dto: ClubCreateDTO, a: User, b: User, t0: Time, t1: Time)
    requires Consistent(db) && IsValid(dto) && a.id != b.id
    requires UserRepo.ExistsById(db.users, a.id) && UserRepo.ExistsById(db.users, b.id)
    ensures var s1 := CreateClub(db, dto, a, t0);
            var c := db.nextClubId;
            var s2 := JoinClub(s1.db, c, b, t1);
            && s2.result == Ok(())
            && WellFormed(s2.db)
            && var s3 := RemoveMember(s2.db, c, b.id, a);
               && s3.result == Ok(())
               && !UserClubRepo.HasMembership(s3.db.userClubs, b.id, c)
               && WellFormed(s3.db)
               && var s4 := LeaveClub(s3.db, c, a);
                  && s4.result == Err(BadRequest)
                  && s4.db == s3.db
                  && UserClubRepo.HasAdminMembership(s4.db.userClubs, a.id, c)
  {
    var s1 := CreateClub(db, dto, a, t0);
    var c := db.nextClubId;
    var mA := UserClub(db.nextUserClubId, a.id, c, ClubRole.ADMIN, t0);
    CreateClubKeepsConsistent(db, dto, a, t0);
    CreateClubMakesCreatorSoleAdmin(db, dto, a, t0);
    var s2 := ScenarioJoin(db, dto, a, b, t0, t1);
    JoinClubKeepsConsistent(s1.db, c, b, t1);
    JoinClubAddsOneMember(s1.db, c, b, t1, t1);
    var mB := UserClub(s1.db.nextUserClubId, b.id, c, ClubRole.MEMBER, t1);
    assert mA in s2.db.userClubs && mB in s2.db.userClubs;
    ScenarioRemove(s2.db, c, a, b, mA, mB);
  }

  /** The join step of LastAdminScenario: B is not yet in the new club, so the join succeeds. */
  lemma ScenarioJoin(db: Db, dto: ClubCreateDTO, a: User, b: User, t0: Time, t1: Time) returns (s2: Step<()>)
    requires WellFormed(db) && IsValid(dto) && a.id != b.id
    ensures var s1 := CreateClub(db, dto, a, t0);
            && s2 == JoinClub(s1.db, db.nextClubId, b, t1)
            && s2.result == Ok(())
  {
    var s1 := CreateClub(db, dto, a, t0);
    var c := db.nextClubId;
    FreshClubHasNoRows(db, c);
    assert s1.db.clubs[|db.clubs|].id == c;
    assert ClubRepo.ExistsById(s1.db.clubs, c);
    assert !UserClubRepo.HasMembership(s1.db.userClubs, b.id, c);
    s2 := JoinClub(s1.db, c, b, t1);
  }

  /**
    The remove and leave steps of LastAdminScenario: with A the only admin and
    B a plain member, removing B succeeds and A may not leave afterwards.
   */
  lemma ScenarioRemove(db: Db, c: ClubId, a: User, b: User, mA: UserClub, mB: UserClub)
    requires Consistent(db) && a.id != b.id
    requires mA == UserClub(mA.id, a.id, c, ClubRole.ADMIN, mA.joinedAt) && mA in db.userClubs
    requires mB == UserClub(mB.id, b.id, c, ClubRole.MEMBER, mB.joinedAt) && mB in db.userClubs
    requires UserClubRepo.FindAdminsByClubId(db.userClubs, c) == [mA]
    ensures var s3 := RemoveMember(db, c, b.id, a);
            && s3.result == Ok(())
            && !UserClubRepo.HasMembership(s3.db.userClubs, b.id, c)
            && WellFormed(s3.db)
            && var s4 := LeaveClub(s3.db, c, a);
               && s4.result == Err(BadRequest)
               && s4.db == s3.db
               && UserClubRepo.HasAdminMembership(s4.db.userClubs, a.id, c)
  {
    var t := db.userClubs;
    var s3 := RemoveMember(db, c, b.id, a);
    RemoveMemberKeepsConsistent(db, c, b.id, a);
    UserClubRepo.FindByPairUnique(t, mB);
    assert s3.db.userClubs == UserClubRepo.Delete(t, mB.id);
    UserClubRepo.FindAdminsDelete(t, mB, c);
    assert mA in s3.db.userClubs;
  }
}
