/**
  Registration. The password encoder is a parameter (`encode`); the service
  converts the request into a user entity and saves it, and the store's
  unique username is what turns a second registration of a name into the
  409 response.
 */
module AuthSpec {
  import opened Model
  import opened Dto
  import opened Store
  import UserRepo
  import UserService
  import ClubSpec

  /** The body of the HTTP response registerUser returns. */
  datatype RegisterResponse =
    | Registered(message: string, username: string)
    | Rejected(status: nat, error: string)

  const RegisteredMessage := "User registered successfully"
  const UsernameExists := "Username already exists"
  const Conflict: nat := 409

  /** What registerUser returns, and the store after it. */
  datatype Registration = Registration(response: RegisterResponse, db: Db)

  /**
    convertRegisterDTOToEntity: the request's fields, the encoded password in
    place of the plain one, and the role USER when the request names none.
   */
  function ConvertRegisterDTOToEntity(dto: RegisterDTO, encode: string -> string): (u: User)
    ensures u.name == dto.name && u.username == dto.username && u.email == dto.email
    ensures u.password == encode(dto.password)
    ensures dto.role.Some? ==> u.role == dto.role.value
    ensures dto.role.None? ==> u.role == Role.USER
  {
    User(0, dto.name, dto.username, dto.email, encode(dto.password),
         if dto.role.Some? then dto.role.value else Role.USER)
  }

  /** registerUser: save the new user, or answer 409 when the username is taken. */
  function RegisterUser(db: Db, dto: RegisterDTO, encode: string -> string): (r: Registration)
    ensures r.response.Rejected? <==> UserRepo.UsernameTaken(db.users, dto.username)
    ensures r.response.Rejected? ==> r.response == Rejected(Conflict, UsernameExists) && r.db == db
    ensures r.response.Registered? ==>
              && r.response == Registered(RegisteredMessage, dto.username)
              && r.db == db.(users := db.users + [ConvertRegisterDTOToEntity(dto, encode).(id := db.nextUserId)],
                             nextUserId := db.nextUserId + 1)
  {
    var user := ConvertRegisterDTOToEntity(dto, encode);
    if UserRepo.FindByUsername(db.users, user.username).Some? then
      Registration(Rejected(Conflict, UsernameExists), db)
    else
      var saved := user.(id := db.nextUserId);
      Registration(Registered(RegisteredMessage, saved.username),
                   db.(users := db.users + [saved], nextUserId := db.nextUserId + 1))
  }

  /**
    A registration keeps the store consistent; the new user can then sign in
    by its username (loadUserByUsername finds it), and any second request for
    the same username is rejected.
   */
  lemma RegisterThenLoad(db: Db, dto: RegisterDTO, encode: string -> string, again: RegisterDTO)
    requires ClubSpec.Consistent(db)
    requires again.username == dto.username
    ensures var r := RegisterUser(db, dto, encode);
            && ClubSpec.Consistent(r.db)
            && (r.response.Registered? ==>
                  && UserService.LoadUserByUsername(r.db.users, dto.username) ==
                     Some(UserService.UserPrincipal(ConvertRegisterDTOToEntity(dto, encode).(id := db.nextUserId)))
                  && RegisterUser(r.db, again, encode).response.Rejected?)
  {
    var r := RegisterUser(db, dto, encode);
    if r.response.Registered? {
      var saved := ConvertRegisterDTOToEntity(dto, encode).(id := db.nextUserId);
      InsertUserWellFormed(db, ConvertRegisterDTOToEntity(dto, encode));
      assert saved in r.db.users;
      UserService.LoadUserByUsernameFindsEachUser(r.db.users, saved);
    }
  }
}

/** The registration as it runs against the store. */
module AuthService {
  import opened Model
  import opened Dto
  import opened Store
  import AuthSpec

  /**
    registerUser: convert, save, and answer; the integrity violation of a
    taken username is caught and becomes the 409 response.
   */
  method RegisterUser(store: Database, dto: RegisterDTO, encode: string -> string)
    returns (response: AuthSpec.RegisterResponse)
    requires store.Valid()
    modifies store
    ensures store.Valid()
    ensures AuthSpec.Registration(response, store.Snapshot()) ==
            AuthSpec.RegisterUser(old(store.Snapshot()), dto, encode)
  {
    var user := AuthSpec.ConvertRegisterDTOToEntity(dto, encode);
    var registered := store.SaveNewUser(user);
    match registered
    case None =>
      response := AuthSpec.Rejected(AuthSpec.Conflict, AuthSpec.UsernameExists);
    case Some(saved) =>
      response := AuthSpec.Registered(AuthSpec.RegisteredMessage, saved.username);
  }
}
