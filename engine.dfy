/**
  The services taken together. Any sequence of the club requests and the
  club deletions, starting from an empty schema, leaves the store consistent,
  so every club that exists has at least one admin at every point in between.
  A user deletion is not among them: it can take the last admin of a club
  with it (AdminSpec.DeleteSoleAdminOrphansClub), and is proved to keep only
  the store's constraints (AdminSpec.DeleteUserRemovesOne).
 */
module Engine {
  import opened Model
  import opened Dto
  import opened Store
  import ClubSpec
  import ClubProperties
  import AdminSpec
  import AuthSpec
  import UserRepo
  import UserClubRepo

  /** What an authenticated caller asks of the club and admin services. */
  datatype Action =
    | CreateClub(create: ClubCreateDTO, now: Time)
    | UpdateClub(clubId: ClubId, update: ClubUpdateDTO)
    | DeleteClub(clubId: ClubId)
    | JoinClub(clubId: ClubId, now: Time)
    | LeaveClub(clubId: ClubId)
    | PromoteMember(clubId: ClubId, userId: UserId)
    | RemoveMember(clubId: ClubId, userId: UserId)
    | DeleteClubAdmin(clubId: ClubId)

  /**
    One write request, as the controllers hand it to the services: a
    registration, or an action under the username of the security principal.
   */
  datatype Request =
    | Register(registration: RegisterDTO)
    | Call(principal: string, action: Action)

  /**
    The store after one action of a stored caller. A creation request that
    fails validation is refused by the controller (@Valid) before the service
    runs.
   */
  function Perform(db: Db, caller: User, action: Action): Db
    requires WellFormed(db)
  {
    match action
    case CreateClub(dto, now) =>
      if IsValid(dto) then ClubSpec.CreateClub(db, dto, caller, now).db else db
    case UpdateClub(clubId, dto) => ClubSpec.UpdateClub(db, clubId, dto, caller).db
    case DeleteClub(clubId) => ClubSpec.DeleteClub(db, clubId, caller).db
    case JoinClub(clubId, now) => ClubSpec.JoinClub(db, clubId, caller, now).db
    case LeaveClub(clubId) => ClubSpec.LeaveClub(db, clubId, caller).db
    case PromoteMember(clubId, userId) => ClubSpec.PromoteMember(db, clubId, userId, caller).db
    case RemoveMember(clubId, userId) => ClubSpec.RemoveMember(db, clubId, userId, caller).db
    case DeleteClubAdmin(clubId) => AdminSpec.DeleteClubAdmin(db, clubId, caller).db
  }

  /**
    The store after one request. The controllers load the caller with
    findByUsername; a principal whose user is gone is refused before any
    service runs (loadUserByUsername fails), and the store stays as it was.
   */
  function Apply(db: Db, req: Request, encode: string -> string): Db
    requires WellFormed(db)
  {
    match req
    case Register(dto) => AuthSpec.RegisterUser(db, dto, encode).db
    case Call(principal, action) =>
      match UserRepo.FindByUsername(db.users, principal)
      case None => db
      case Some(caller) => Perform(db, caller, action)
  }

  /** Every action of a stored caller keeps the store consistent. */
  lemma PerformKeepsConsistent(db: Db, caller: User, action: Action)
    requires ClubSpec.Consistent(db) && caller in db.users
    ensures ClubSpec.Consistent(Perform(db, caller, action))
  {
    assert UserRepo.ExistsById(db.users, caller.id);
    match action
    case CreateClub(dto, now) =>
      if IsValid(dto) {
        ClubProperties.CreateClubKeepsConsistent(db, dto, caller, now);
      }
    case UpdateClub(clubId, dto) => ClubProperties.UpdateClubKeepsConsistent(db, clubId, dto, caller);
    case DeleteClub(clubId) => ClubProperties.DeleteClubKeepsConsistent(db, clubId, caller);
    case JoinClub(clubId, now) => ClubProperties.JoinClubKeepsConsistent(db, clubId, caller, now);
    case LeaveClub(clubId) => ClubProperties.LeaveClubKeepsConsistent(db, clubId, caller);
    case PromoteMember(clubId, userId) =>
      ClubProperties.PromoteMemberKeepsConsistent(db, clubId, userId, caller);
    case RemoveMember(clubId, userId) =>
      ClubProperties.RemoveMemberKeepsConsistent(db, clubId, userId, caller);
    case DeleteClubAdmin(clubId) => AdminSpec.DeleteClubAdminKeepsConsistent(db, clubId, caller);
  }

  /** Every request keeps the store consistent. */
  lemma ApplyKeepsConsistent(db: Db, req: Request, encode: string -> string)
    requires ClubSpec.Consistent(db)
    ensures ClubSpec.Consistent(Apply(db, req, encode))
  {
    match req
    case Register(dto) => AuthSpec.RegisterThenLoad(db, dto, encode, dto);
    case Call(principal, action) =>
      match UserRepo.FindByUsername(db.users, principal)
      case None =>
      case Some(caller) => PerformKeepsConsistent(db, caller, action);
  }

  /** The requests in order; each sees the store the previous one left. */
  function Run(db: Db, reqs: seq<Request>, encode: string -> string): (r: Db)
    requires ClubSpec.Consistent(db)
    ensures ClubSpec.Consistent(r)
    decreases |reqs|
  {
    if reqs == [] then db
    else
      ApplyKeepsConsistent(db, reqs[0], encode);
      Run(Apply(db, reqs[0], encode), reqs[1..], encode)
  }

  /** Running requests one batch after another is running them all at once. */
  lemma {:induction false} RunConcat(db: Db, a: seq<Request>, b: seq<Request>, encode: string -> string)
    requires ClubSpec.Consistent(db)
    ensures Run(db, a + b, encode) == Run(Run(db, a, encode), b, encode)
    decreases |a|
  {
    if a == [] {
      assert a + b == b;
    } else {
      assert (a + b)[0] == a[0];
      assert (a + b)[1..] == a[1..] + b;
      ApplyKeepsConsistent(db, a[0], encode);
      RunConcat(Apply(db, a[0], encode), a[1..], b, encode);
    }
  }

  /** The empty schema is consistent. */
  lemma EmptyIsConsistent()
    ensures ClubSpec.Consistent(EmptyDb)
  {
  }

  /** From an empty schema, every club that exists after any run of requests has an admin. */
  lemma EveryRunKeepsAnAdmin(reqs: seq<Request>, encode: string -> string)
    ensures ClubSpec.Consistent(EmptyDb)
    ensures var db := Run(EmptyDb, reqs, encode);
            forall c :: c in db.clubs ==> |UserClubRepo.FindAdminsByClubId(db.userClubs, c.id)| > 0
  {
    EmptyIsConsistent();
  }
}
