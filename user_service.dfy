/**
  The user queries: the security lookup by username, the user listings and
  one user's clubs. None of them writes, so each is a function of the store
  snapshot. The authenticated caller arrives as the username in the security
  principal.
 */
module UserService {
  import opened Model
  import opened Dto
  import opened Store
  import UserRepo
  import ClubRepo
  import UserClubRepo
  import ClubSpec

  /** The security principal built around a stored user. */
  datatype UserPrincipal = UserPrincipal(user: User)

  /** loadUserByUsername: the principal of the user with that name; no such user is an error. */
  function LoadUserByUsername(users: seq<User>, username: string): (r: Option<UserPrincipal>)
    ensures r.None? <==> !UserRepo.UsernameTaken(users, username)
    ensures r.Some? ==> r.value.user in users && r.value.user.username == username
  {
    match UserRepo.FindByUsername(users, username)
    case None => None
    case Some(u) => Some(UserPrincipal(u))
  }

  /** With unique usernames, every stored user is found by its own name. */
  lemma LoadUserByUsernameFindsEachUser(users: seq<User>, u: User)
    requires UserRepo.UniqueUsernames(users) && u in users
    ensures LoadUserByUsername(users, u.username) == Some(UserPrincipal(u))
  {
    UserRepo.FindByUsernameUnique(users, u);
  }

  /** convertToUserResponseDTO: the user's public columns and the role by name; never the password. */
  function ConvertToUserResponseDTO(u: User): (r: UserResponseDTO)
    ensures r.id == u.id && r.name == u.name && r.username == u.username && r.email == u.email
    ensures ParseRole(r.role) == Some(u.role)
  {
    UserResponseDTO(u.id, u.name, u.username, u.email, RoleName(u.role))
  }

  function ConvertAll(users: seq<User>): (r: seq<UserResponseDTO>)
    ensures |r| == |users|
    ensures forall i :: 0 <= i < |users| ==> r[i] == ConvertToUserResponseDTO(users[i])
  {
    if users == [] then [] else [ConvertToUserResponseDTO(users[0])] + ConvertAll(users[1..])
  }

  /** The views of a list are exactly the views of its users. */
  lemma ConvertAllMembers(users: seq<User>)
    ensures forall u :: u in users ==> ConvertToUserResponseDTO(u) in ConvertAll(users)
    ensures forall x :: x in ConvertAll(users) ==> exists u :: u in users && x == ConvertToUserResponseDTO(u)
  {
    var r := ConvertAll(users);
    forall u | u in users ensures ConvertToUserResponseDTO(u) in r {
      var i :| 0 <= i < |users| && users[i] == u;
      assert r[i] == ConvertToUserResponseDTO(u);
    }
    forall x | x in r ensures exists u :: u in users && x == ConvertToUserResponseDTO(u) {
      var i :| 0 <= i < |r| && r[i] == x;
      assert users[i] in users;
    }
  }

  /**
    getAllUsers: every user except the caller. The caller is looked up by the
    principal's username; when no user has it the lookup yields null and the
    call fails (None).
   */
  function GetAllUsers(users: seq<User>, principal: string): (r: Option<seq<UserResponseDTO>>)
    ensures r.None? <==> !UserRepo.UsernameTaken(users, principal)
    ensures r.Some? ==>
              var me := UserRepo.FindByUsername(users, principal).value;
              && (forall x :: x in r.value ==> x.id != me.id)
              && (forall u :: u in users && u.id != me.id ==> ConvertToUserResponseDTO(u) in r.value)
              && (forall x :: x in r.value ==> exists u :: u in users && x == ConvertToUserResponseDTO(u))
  {
    match UserRepo.FindByUsername(users, principal)
    case None => None
    case Some(me) =>
      var others := UserRepo.FindAllExceptUserId(users, me.id);
      ConvertAllMembers(others);
      Some(ConvertAll(others))
  }

  /** getUserById: the view of the user with that id, if there is one. */
  function GetUserById(users: seq<User>, id: UserId): (r: Option<UserResponseDTO>)
    ensures r.None? <==> !UserRepo.ExistsById(users, id)
    ensures r.Some? ==> r.value.id == id &&
                        exists u :: u in users && u.id == id && r.value == ConvertToUserResponseDTO(u)
  {
    match UserRepo.FindById(users, id)
    case None => None
    case Some(u) => Some(ConvertToUserResponseDTO(u))
  }

  /**
    convertToClubResponseDTO: the membership's club, the user's role in it by
    name, and the club's number of members (the size of its members collection).
   */
  function ConvertToClubResponseDTO(db: Db, m: UserClub): (r: ClubResponseDTO)
    requires ClubRepo.ExistsById(db.clubs, m.clubId)
    ensures r.id == m.clubId
    ensures ParseClubRole(r.clubRole) == Some(m.clubRole)
    ensures r.memberCount == |UserClubRepo.FindByClubId(db.userClubs, m.clubId)|
    ensures var c := ClubRepo.FindById(db.clubs, m.clubId).value;
            r.name == c.name && r.description == c.description && r.category == c.category &&
            r.free == c.free && r.price == c.price
  {
    var club := ClubRepo.FindById(db.clubs, m.clubId).value;
    ClubResponseDTO(club.id, club.name, club.description, club.category, club.free, club.price,
                    ClubRoleName(m.clubRole), UserClubRepo.CountByClubId(db.userClubs, club.id))
  }

  function ClubsOf(db: Db, rows: seq<UserClub>): (r: seq<ClubResponseDTO>)
    requires forall i :: 0 <= i < |rows| ==> ClubRepo.ExistsById(db.clubs, rows[i].clubId)
    ensures |r| == |rows|
    ensures forall i :: 0 <= i < |rows| ==> r[i] == ConvertToClubResponseDTO(db, rows[i])
  {
    if rows == [] then []
    else
      assert forall i :: 0 <= i < |rows| - 1 ==> rows[1..][i] == rows[i + 1];
      [ConvertToClubResponseDTO(db, rows[0])] + ClubsOf(db, rows[1..])
  }

  /** getUserClubs: for a stored user, one entry per membership, in table order. */
  function GetUserClubs(db: Db, userId: UserId): (r: Option<seq<ClubResponseDTO>>)
    requires WellFormed(db)
    ensures r.None? <==> !UserRepo.ExistsById(db.users, userId)
    ensures r.Some? ==>
              var rows := UserClubRepo.FindByUserId(db.userClubs, userId);
              && |r.value| == |rows|
              && forall i :: 0 <= i < |rows| ==> r.value[i] == ConvertToClubResponseDTO(db, rows[i])
  {
    match UserRepo.FindById(db.users, userId)
    case None => None
    case Some(user) => Some(ClubsOf(db, UserClubRepo.FindByUserId(db.userClubs, user.id)))
  }

  /**
    Each entry of a user's club list is a club the user belongs to, and its
    member count is the one the club's own view reports.
   */
  lemma UserClubsAreMemberships(db: Db, userId: UserId)
    requires WellFormed(db) && UserRepo.ExistsById(db.users, userId)
    ensures var r := GetUserClubs(db, userId).value;
            forall i :: 0 <= i < |r| ==>
              && UserClubRepo.HasMembership(db.userClubs, userId, r[i].id)
              && ClubSpec.GetClubById(db, r[i].id).Ok?
              && r[i].memberCount == ClubSpec.GetClubById(db, r[i].id).value.memberCount
  {
    var r := GetUserClubs(db, userId).value;
    var rows := UserClubRepo.FindByUserId(db.userClubs, userId);
    forall i | 0 <= i < |r|
      ensures UserClubRepo.HasMembership(db.userClubs, userId, r[i].id)
      ensures ClubSpec.GetClubById(db, r[i].id).Ok?
      ensures r[i].memberCount == ClubSpec.GetClubById(db, r[i].id).value.memberCount
    {
      assert rows[i] in rows;
      assert r[i] == ConvertToClubResponseDTO(db, rows[i]);
    }
  }

  /** The entry at a position of a user's club list names the club of the membership at that position. */
  lemma UserClubEntry(db: Db, userId: UserId, i: nat)
    requires WellFormed(db) && UserRepo.ExistsById(db.users, userId)
    requires i < |UserClubRepo.FindByUserId(db.userClubs, userId)|
    ensures i < |GetUserClubs(db, userId).value|
    ensures GetUserClubs(db, userId).value[i].id == UserClubRepo.FindByUserId(db.userClubs, userId)[i].clubId
  {
  }

  /** Every club the user belongs to appears in the user's club list. */
  lemma MembershipsAreUserClubs(db: Db, userId: UserId)
    requires WellFormed(db) && UserRepo.ExistsById(db.users, userId)
    ensures var r := GetUserClubs(db, userId).value;
            forall c :: UserClubRepo.HasMembership(db.userClubs, userId, c) ==>
              exists i :: 0 <= i < |r| && r[i].id == c
  {
    var r := GetUserClubs(db, userId).value;
    var rows := UserClubRepo.FindByUserId(db.userClubs, userId);
    forall c | UserClubRepo.HasMembership(db.userClubs, userId, c)
      ensures exists i :: 0 <= i < |r| && r[i].id == c
    {
      var m :| m in db.userClubs && m.userId == userId && m.clubId == c;
      assert m in rows;
      var i :| 0 <= i < |rows| && rows[i] == m;
      UserClubEntry(db, userId, i);
    }
  }
}
