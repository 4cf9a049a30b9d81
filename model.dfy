/**
  The entities of the membership platform: users with a global role, clubs,
  and the user_club join rows that carry a per-club role.
  Ids are the store's generated keys; a loaded entity is a value here.
 */
module Model {

  datatype Option<+T> = None | Some(value: T)

  type UserId = nat
  type ClubId = nat
  type UserClubId = nat

  /** A LocalDateTime instant, supplied by the caller instead of read from a clock. */
  type Time = int

  /** A BigDecimal price; nothing computes with it, so an integer stands for it. */
  type Price = int

  /** The global account role. */
  datatype Role = USER | ADMIN

  /** The role a membership gives inside one club. */
  datatype ClubRole = MEMBER | ADMIN

  /** Enum.name() of a global role. */
  function RoleName(r: Role): (n: string)
    ensures ParseRole(n) == Some(r)
  {
    match r
    case USER => "USER"
    case ADMIN => "ADMIN"
  }

  /** The inverse of RoleName: the enum constant stored under a name, if any. */
  function ParseRole(n: string): Option<Role>
  {
    if n == "USER" then Some(Role.USER)
    else if n == "ADMIN" then Some(Role.ADMIN)
    else None
  }

  /** Enum.name() of a club role; the club_role column stores exactly this text. */
  function ClubRoleName(r: ClubRole): (n: string)
    ensures ParseClubRole(n) == Some(r)
  {
    match r
    case MEMBER => "MEMBER"
    case ADMIN => "ADMIN"
  }

  /** Reads a club_role column back into the enum. */
  function ParseClubRole(n: string): Option<ClubRole>
  {
    if n == "MEMBER" then Some(ClubRole.MEMBER)
    else if n == "ADMIN" then Some(ClubRole.ADMIN)
    else None
  }

  /** A stored user; `password` holds the encoder's output, never the raw password. */
  datatype User = User(id: UserId, name: string, username: string, email: string,
                       password: string, role: Role)

  /**
    A stored club. `free` and `price` are independent columns, and `creator` is a
    plain reference: nothing cascades from it. The `members` relation of the
    entity is not a field here: it is the set of user_club rows with this club id.
   */
  datatype Club = Club(id: ClubId, name: string, description: string, category: string,
                       free: bool, price: Option<Price>, creator: Option<UserId>)

  /** One user_club row: exactly one user, exactly one club, a club role, a join time. */
  datatype UserClub = UserClub(id: UserClubId, userId: UserId, clubId: ClubId,
                               clubRole: ClubRole, joinedAt: Time)

  /** ResourceNotFoundException, UnauthorizedException and BadRequestException. */
  datatype Error = ResourceNotFound | Unauthorized | BadRequest

  /** A service call either returns a value or raises one of the three exceptions. */
  datatype Result<+T> = Ok(value: T) | Err(error: Error)
}
