# TribeNet club membership and authorization core, in Dafny

TribeNet is a club platform. Each user has a global role, USER or ADMIN. A user joins clubs through `user_club` rows. Each row holds a per-club role, MEMBER or ADMIN, and the time of joining. This project models the service layer that decides who may create, change, join, leave, promote in, remove from and delete clubs. It also models the user and registration queries it relies on and the web client's `escapeHtml`.

The central property is that **every club always has at least one club admin**. It is proved for every club operation, for the administrator's club deletion, and for any sequence of those and of registrations (`Engine.Run`). It does not hold for the administrator's user deletion: deleting the only admin of a club leaves the club with none (`AdminSpec.DeleteSoleAdminOrphansClub`). That operation is proved to keep only the schema constraints.

## Structure

- `model.dfy` (`Model`): the entities `User`, `Club` and `UserClub`, the two role enums with their names, and the three service exceptions as `Error`.
- `dto.dfy` (`Dto`): request and response records. The Bean Validation rules of `ClubCreateDTO` are modelled as the set of violation messages.
- `user_repo.dfy`, `club_repo.dfy`, `user_club_repo.dfy`:
  - Each table is a sequence in insertion order.
  - Every repository query and write is a function on it.
  - Lemmas say how each write moves each query, and that each write keeps the table's key and uniqueness constraints.
- `store.dfy` (`Store`):
  - `Db` is a snapshot of the three tables and their generated-id counters.
  - `WellFormed` is what the schema guarantees: distinct ids below the counters, unique usernames, unique (user, club) pairs, and every row naming an existing user and an existing club.
  - `Database` is the store itself: a class whose `save`/`delete` methods change its fields and keep `WellFormed`.
- `club_spec.dfy`:
  - `ClubSpec` gives each club operation as a pure transition `Db -> Step(result, Db)`. Each error case is stated as an if-and-only-if.
  - `ClubProperties` proves that each transition keeps `Consistent` (that is, `WellFormed` plus every club having an admin) and what its effect looks like to later queries.
- `club_service.dfy` (`ClubService`): the service methods written imperatively against a `Database`, step by step as the service performs them. Each is proved to return the result, and leave the state, that `ClubSpec` gives.
- `user_service.dfy`, `auth.dfy`, `admin.dfy`: the user queries, registration, and the administrator's operations. They follow the same spec/service split where they write.
- `html.dfy` (`Html`): `escapeHtml` with its inverse `Unescape`, a round-trip proof, and the fact that escaped text holds no markup character.
- `engine.dfy` (`Engine`): registrations and the eight club and club-deletion actions applied in sequence, each action under the user that the principal's username names.

## Behaviour worth knowing

- **Self-removal.** `removeMember` checks that the caller is a club admin before it looks at who is being removed (ClubService.java:166-175). So a caller who is not a club admin and tries to remove themselves gets Unauthorized, not the self-removal BadRequest. `ClubSpec.RemoveMember` states this order.
- **Dead last-admin check.** The last-admin check of `removeMember` (ClubService.java:177-182) can never fire: the caller is an admin and is not the target. So a target that is an ADMIN is never the club's only admin (`ClubSpec.OtherAdminLeavesOne`). The only BadRequest of `removeMember` is removing oneself. This is redundant code, not a defect.
- **leaveClub guard.** The guard compares the sole admin's row id with the caller's row id. Under the schema constraints this is exactly "the caller is the club's only admin" (`ClubSpec.LeaveGuard`).
- **deleteClub vs deleteClubAdmin.** Both require the global ADMIN role and remove the club with its rows through the `members` cascade (Club.java:33-34). They check in a different order, so for a missing club a non-admin gets NotFound from one and Unauthorized from the other (`AdminSpec.ClubDeletesAgree`).
- **Registration roles.** Registration accepts any requested role, ADMIN included, and defaults to USER (AuthService.java:76). A taken username becomes the 409 response through the unique username column.
- **deleteUser.** `deleteUser` itself issues only `userRepo.delete(user)` (AdminService.java:50). What happens to the user's `user_club` rows is decided by the `User` entity's `memberships` relation (used at UserService.java:57), and User.java is not part of this model. The model takes that relation to cascade, as `Club.members` does (Club.java:33-34): the user's rows go with the user, and every remaining row still names a stored user. After such a deletion a club keeps an admin exactly when some other user holds an admin row of it (`AdminSpec.DeleteUserKeepsAdminIff`). Nothing in `deleteUser` checks this, so a system ADMIN can delete a club's only admin and leave the club with none (`AdminSpec.DeleteSoleAdminOrphansClub`). For that reason `Engine.Run` covers every write request except user deletion.

## Model

| member | source | states |
|---|---|---|
| Model.RoleName | src/main/java/org/tribenet/tribenet/service/UserService.java:74 | the role name written into a user view reads back (ParseRole) as the same role |
| Model.ClubRoleName | src/main/java/org/tribenet/tribenet/service/ClubService.java:214 | the club role name written into a member or club view reads back as the same club role |
| Dto.Violations | src/main/java/org/tribenet/tribenet/dto/ClubCreateDTO.java:11-23 | each of the four messages is reported exactly when its field is null or blank (free: null); no other message exists; price has no constraint |
| Dto.ValidIff | src/main/java/org/tribenet/tribenet/dto/ClubCreateDTO.java:11-23 | a creation request passes validation iff name, description and category are not blank and free is set |
| Dto.PriceUnconstrained | src/main/java/org/tribenet/tribenet/dto/ClubCreateDTO.java:23 | changing the price never changes whether a request is valid |
| Dto.BlankNameRefused | src/main/java/org/tribenet/tribenet/dto/ClubCreateDTO.java:11-12 | every name made only of spaces, tabs and line breaks, the empty name included, is reported as "Club name is required" and the request is refused |
| UserClubRepo.FindByUserIdAndClubId | src/main/java/org/tribenet/tribenet/repository/UserClubRepo.java:15-16 | finds a row of that user and club, and finds none iff no such row exists |
| UserClubRepo.FindByClubId | src/main/java/org/tribenet/tribenet/repository/UserClubRepo.java:18-19 | contains exactly the rows of the club |
| UserClubRepo.CountByClubId | src/main/java/org/tribenet/tribenet/repository/UserClubRepo.java:21-22 | the count equals the number of rows findByClubId returns |
| UserClubRepo.FindAdminsByClubId | src/main/java/org/tribenet/tribenet/repository/UserClubRepo.java:24-25 | contains exactly the rows of the club whose club role is ADMIN |
| UserClubRepo.FindByUserId | src/main/java/org/tribenet/tribenet/service/UserService.java:57 | contains exactly the rows of the user (the user entity's memberships) |
| UserClubRepo.Delete | src/main/java/org/tribenet/tribenet/service/ClubService.java:134 | removes exactly the rows with that id |
| UserClubRepo.Replace | src/main/java/org/tribenet/tribenet/service/ClubService.java:161 | overwrites, position by position, exactly the row whose id matches |
| UserClubRepo.DeleteByClubId | src/main/java/org/tribenet/tribenet/model/Club.java:33-34 | the cascade from a club: keeps exactly the rows of other clubs |
| UserClubRepo.DeleteByUserId | src/main/java/org/tribenet/tribenet/service/UserService.java:57 | the cascade through a user's memberships keeps exactly the rows of other users |
| UserClubRepo.FindByPairUnique | src/main/java/org/tribenet/tribenet/model/UserClub.java:9-12 | under the unique (user_id, club_id) constraint the lookup returns the one row of its pair |
| UserClubRepo.FindByPairExact | src/main/java/org/tribenet/tribenet/model/UserClub.java:9-12 | under the unique constraint every row of a pair is the row the lookup returns |
| UserClubRepo.SameIdSameRow | src/main/java/org/tribenet/tribenet/model/UserClub.java:16-18 | two rows with the same generated id are the same row |
| UserClubRepo.FindByClubIdNone | src/main/java/org/tribenet/tribenet/repository/UserClubRepo.java:18-19 | a club no row refers to has no rows |
| UserClubRepo.DeleteAbsent | src/main/java/org/tribenet/tribenet/service/ClubService.java:134 | deleting an id no row has changes nothing |
| UserClubRepo.ReplaceAbsent | src/main/java/org/tribenet/tribenet/service/ClubService.java:161 | overwriting an id no row has changes nothing |
| UserClubRepo.DeleteExactlyPair | src/main/java/org/tribenet/tribenet/service/ClubService.java:134 | deleting a row by its id removes exactly the rows of its (user, club) pair |
| UserClubRepo.ReplaceExactlyPair | src/main/java/org/tribenet/tribenet/service/ClubService.java:160-161 | saving a row by its id overwrites exactly the row of its (user, club) pair |
| UserClubRepo.FindByClubIdAppend | src/main/java/org/tribenet/tribenet/service/ClubService.java:121 | a saved row joins the end of its own club's rows and no other club's |
| UserClubRepo.AdminsWithinMembers | src/main/java/org/tribenet/tribenet/repository/UserClubRepo.java:21-25 | a club has no more admin rows than rows |
| UserClubRepo.FindAdminsAppend | src/main/java/org/tribenet/tribenet/service/ClubService.java:49 | a saved row joins its club's admins exactly when it is an ADMIN row |
| UserClubRepo.FindAdminsDelete | src/main/java/org/tribenet/tribenet/service/ClubService.java:134 | deleting a row lowers its club's admin count by one if it was ADMIN, and no other club's |
| UserClubRepo.CountDelete | src/main/java/org/tribenet/tribenet/service/ClubService.java:134 | deleting a row lowers its club's member count by one and no other club's |
| UserClubRepo.FindAdminsReplace | src/main/java/org/tribenet/tribenet/service/ClubService.java:160-161 | promoting a MEMBER row to ADMIN raises its club's admin count by one and no other |
| UserClubRepo.CountReplace | src/main/java/org/tribenet/tribenet/service/ClubService.java:160-161 | saving a row with the same club changes no member count |
| UserClubRepo.FindAdminsDeleteByClubId | src/main/java/org/tribenet/tribenet/model/Club.java:33-34 | the cascade leaves the admins of every other club as they were |
| UserClubRepo.FindByClubIdDeleteByClubId | src/main/java/org/tribenet/tribenet/model/Club.java:33-34 | the cascade leaves the rows of every other club as they were |
| UserClubRepo.AppendKeepsConstraints | src/main/java/org/tribenet/tribenet/model/UserClub.java:9-12 | a new row with a fresh id and an unused pair keeps ids distinct and pairs unique |
| UserClubRepo.DeleteKeepsConstraints | src/main/java/org/tribenet/tribenet/model/UserClub.java:9-12 | deleting keeps ids distinct and pairs unique |
| UserClubRepo.DeleteByClubIdKeepsConstraints | src/main/java/org/tribenet/tribenet/model/Club.java:33-34 | the cascade keeps ids distinct and pairs unique |
| UserClubRepo.DeleteByUserIdKeepsConstraints | src/main/java/org/tribenet/tribenet/model/UserClub.java:9-22 | the user cascade keeps ids distinct and pairs unique |
| UserClubRepo.ReplaceKeepsConstraints | src/main/java/org/tribenet/tribenet/model/UserClub.java:9-12 | overwriting a row with one of the same id and pair keeps ids distinct and pairs unique |
| UserRepo.FindById | src/main/java/org/tribenet/tribenet/service/UserService.java:50-52 | finds a user with that id, and none iff no user has it |
| UserRepo.FindByUsername | src/main/java/org/tribenet/tribenet/repository/UserRepo.java:13 | finds a user with that username, and null iff no user has it |
| UserRepo.FindAllExceptUserId | src/main/java/org/tribenet/tribenet/repository/UserRepo.java:15-16 | contains exactly the users whose id differs |
| UserRepo.Delete | src/main/java/org/tribenet/tribenet/service/AdminService.java:50 | removes exactly the users with that id |
| UserRepo.FindByUsernameUnique | src/main/java/org/tribenet/tribenet/repository/UserRepo.java:13 | with unique usernames, each user is the one found by its own name |
| UserRepo.FindByIdUnique | src/main/java/org/tribenet/tribenet/service/AdminService.java:43-44 | with distinct ids, each user is the one found by its own id |
| UserRepo.DeleteAbsent | src/main/java/org/tribenet/tribenet/service/AdminService.java:50 | deleting an id no user has changes nothing |
| UserRepo.DeleteOne | src/main/java/org/tribenet/tribenet/service/AdminService.java:50 | deleting a stored user removes exactly one row |
| UserRepo.AppendKeepsConstraints | src/main/java/org/tribenet/tribenet/service/AuthService.java:42 | a new user with a fresh id and an unused username keeps ids and usernames unique |
| UserRepo.DeleteKeepsConstraints | src/main/java/org/tribenet/tribenet/service/AdminService.java:50 | deleting keeps ids and usernames unique |
| ClubRepo.FindById | src/main/java/org/tribenet/tribenet/service/ClubService.java:61-62 | finds a club with that id, and none iff no club has it |
| ClubRepo.Replace | src/main/java/org/tribenet/tribenet/service/ClubService.java:91 | saving a loaded club overwrites, position by position, exactly the club with its id |
| ClubRepo.DeleteById | src/main/java/org/tribenet/tribenet/service/AdminService.java:63 | keeps exactly the clubs with another id |
| ClubRepo.FindByIdUnique | src/main/java/org/tribenet/tribenet/model/Club.java:15-17 | with distinct ids, each club is the one found by its own id |
| ClubRepo.AppendKeepsDistinct | src/main/java/org/tribenet/tribenet/model/Club.java:15-17 | a club with a fresh id keeps ids distinct |
| ClubRepo.DeleteKeepsDistinct | src/main/java/org/tribenet/tribenet/model/Club.java:15-17 | deleting keeps ids distinct |
| ClubRepo.ReplaceKeepsDistinct | src/main/java/org/tribenet/tribenet/service/ClubService.java:91 | saving a loaded club keeps ids distinct |
| ClubRepo.ReplaceKeepsOthers | src/main/java/org/tribenet/tribenet/service/ClubService.java:91 | after saving, every club is either an old club or the saved version |
| ClubRepo.ReplaceKeepsIds | src/main/java/org/tribenet/tribenet/service/ClubService.java:91 | saving a loaded club neither adds nor removes an id |
| ClubRepo.ReplaceThenFind | src/main/java/org/tribenet/tribenet/service/ClubService.java:91 | after saving, the lookup by id returns the saved version |
| ClubRepo.ReplaceTwice | src/main/java/org/tribenet/tribenet/service/ClubService.java:91 | saving the same club twice is saving it once |
| Store.FreshClubHasNoRows | src/main/java/org/tribenet/tribenet/service/ClubService.java:42-49 | a club id not yet handed out has no rows and no admins |
| Store.InsertUserWellFormed | src/main/java/org/tribenet/tribenet/service/AuthService.java:42 | saving a user with an unused username keeps the schema constraints |
| Store.DeleteUserWellFormed | src/main/java/org/tribenet/tribenet/model/UserClub.java:20-22 | deleting a user together with the user's rows keeps the schema constraints, including that every remaining row names a stored user |
| Store.InsertClubWellFormed | src/main/java/org/tribenet/tribenet/service/ClubService.java:42 | saving a new club keeps the schema constraints |
| Store.ReplaceClubWellFormed | src/main/java/org/tribenet/tribenet/service/ClubService.java:91 | saving a loaded club keeps the schema constraints |
| Store.DeleteClubWellFormed | src/main/java/org/tribenet/tribenet/model/Club.java:33-34 | deleting a club with its cascade keeps the constraints, every remaining row still names a club |
| Store.InsertUserClubWellFormed | src/main/java/org/tribenet/tribenet/model/UserClub.java:9-26 | saving a row for a stored user, an existing club and an unused pair keeps the constraints |
| Store.ReplaceUserClubWellFormed | src/main/java/org/tribenet/tribenet/service/ClubService.java:161 | saving a loaded row with its own user and club keeps the constraints |
| Store.DeleteUserClubWellFormed | src/main/java/org/tribenet/tribenet/service/ClubService.java:134 | deleting a row keeps the constraints |
| Store.Database.constructor | src/main/java/org/tribenet/tribenet/service/ClubService.java:24-30 | a new store is the empty schema and valid |
| Store.Database.SaveNewUser | src/main/java/org/tribenet/tribenet/service/AuthService.java:42 | refuses a taken username and changes nothing; otherwise appends the user under the next id |
| Store.Database.DeleteUser | src/main/java/org/tribenet/tribenet/service/AdminService.java:50 | the new state is the old one without that user and without the user's rows |
| Store.Database.SaveNewClub | src/main/java/org/tribenet/tribenet/service/ClubService.java:42 | appends the club under the next id |
| Store.Database.SaveClub | src/main/java/org/tribenet/tribenet/service/ClubService.java:91 | the new state is the old one with that club overwritten |
| Store.Database.DeleteClub | src/main/java/org/tribenet/tribenet/service/ClubService.java:104 | the new state lacks the club and, by cascade, its rows |
| Store.Database.SaveNewUserClub | src/main/java/org/tribenet/tribenet/model/UserClub.java:9-26 | refuses a duplicate pair, a missing user or a missing club and changes nothing; otherwise appends under the next id |
| Store.Database.SaveUserClub | src/main/java/org/tribenet/tribenet/service/ClubService.java:161 | the new state is the old one with that row overwritten |
| Store.Database.DeleteUserClub | src/main/java/org/tribenet/tribenet/service/ClubService.java:134 | the new state is the old one without that row |
| ClubSpec.IsUserClubAdmin | src/main/java/org/tribenet/tribenet/service/ClubService.java:187-191 | true iff the user has a membership of the club with club role ADMIN |
| ClubSpec.ConvertToClubDetailDTO | src/main/java/org/tribenet/tribenet/service/ClubService.java:193-205 | the view carries the club's columns, its creator id, and a member count equal to its number of rows |
| ClubSpec.GetClubById | src/main/java/org/tribenet/tribenet/service/ClubService.java:60-64 | NotFound iff the club is absent; otherwise the club's view with its member count |
| ClubSpec.ClubDetails | src/main/java/org/tribenet/tribenet/service/ClubService.java:54-58 | one view per club, position by position |
| ClubSpec.GetAllClubs | src/main/java/org/tribenet/tribenet/service/ClubService.java:54-58 | one view per stored club, in table order |
| ClubSpec.ConvertToMemberResponseDTO | src/main/java/org/tribenet/tribenet/service/ClubService.java:207-217 | the member view carries the member's user columns, the club role by a name that reads back, and the join time |
| ClubSpec.MembersOf | src/main/java/org/tribenet/tribenet/service/ClubService.java:142-144 | one member view per row, position by position |
| ClubSpec.GetClubMembers | src/main/java/org/tribenet/tribenet/service/ClubService.java:137-145 | NotFound iff the club is absent; otherwise one view per row of the club, each row's view present and no other |
| ClubSpec.CreateClub | src/main/java/org/tribenet/tribenet/service/ClubService.java:33-52 | always succeeds; appends the club under a fresh id and the creator's ADMIN row; the view has member count 1 and the creator's id |
| ClubSpec.ApplyUpdate | src/main/java/org/tribenet/tribenet/service/ClubService.java:75-89 | each non-null field of the request replaces the club's field, each null field keeps it; id and creator never change |
| ClubSpec.UpdateClub | src/main/java/org/tribenet/tribenet/service/ClubService.java:67-93 | NotFound iff the club is absent; Unauthorized iff present and the caller is not its club admin; otherwise the stored club becomes the patched one |
| ClubSpec.DeleteClub | src/main/java/org/tribenet/tribenet/service/ClubService.java:96-105 | NotFound iff absent; Unauthorized iff present and the caller's system role is not ADMIN; otherwise removes the club and all its rows |
| ClubSpec.JoinClub | src/main/java/org/tribenet/tribenet/service/ClubService.java:108-122 | NotFound iff the club is absent; BadRequest iff the user is already a member; otherwise appends one MEMBER row |
| ClubSpec.LeaveGuard | src/main/java/org/tribenet/tribenet/service/ClubService.java:129-130 | the id comparison in the guard means exactly: the caller is a club admin and the only one |
| ClubSpec.LeaveClub | src/main/java/org/tribenet/tribenet/service/ClubService.java:125-135 | NotFound iff no membership; BadRequest iff the caller is the club's only admin; otherwise exactly the caller's row goes |
| ClubSpec.PromoteMember | src/main/java/org/tribenet/tribenet/service/ClubService.java:148-162 | Unauthorized iff the caller is not a club admin; NotFound iff the target is not a member; BadRequest iff the target is already ADMIN; otherwise only the target's row becomes ADMIN |
| ClubSpec.OtherAdminLeavesOne | src/main/java/org/tribenet/tribenet/service/ClubService.java:177-182 | when an admin caller targets another ADMIN member, the club has at least two admins |
| ClubSpec.RemoveMember | src/main/java/org/tribenet/tribenet/service/ClubService.java:165-185 | Unauthorized iff the caller is not a club admin; NotFound iff the target is not a member; BadRequest iff the target is the caller; otherwise exactly the target's row goes |
| ClubProperties.CreateClubKeepsConsistent | src/main/java/org/tribenet/tribenet/service/ClubService.java:42-49 | creation by a stored user keeps the constraints and leaves every club with an admin |
| ClubProperties.AdminRowKeepsAdmins | src/main/java/org/tribenet/tribenet/service/ClubService.java:44-49 | adding a club together with its ADMIN row leaves every club with an admin |
| ClubProperties.CreateClubMakesCreatorSoleAdmin | src/main/java/org/tribenet/tribenet/service/ClubService.java:44-51 | the new club reads back as the returned view, and its only admin row is the creator's |
| ClubProperties.UpdateClubKeepsConsistent | src/main/java/org/tribenet/tribenet/service/ClubService.java:91-92 | an update keeps the store consistent and the club reads back as the returned view |
| ClubProperties.UpdateClubIdempotent | src/main/java/org/tribenet/tribenet/service/ClubService.java:75-92 | sending the same successful update again changes nothing and returns the same view |
| ClubProperties.DeleteClubKeepsConsistent | src/main/java/org/tribenet/tribenet/service/ClubService.java:104 | a deletion keeps the store consistent; the club and its rows are gone; every other club keeps its rows |
| ClubProperties.JoinClubKeepsConsistent | src/main/java/org/tribenet/tribenet/service/ClubService.java:116-121 | a join by a stored user keeps the store consistent |
| ClubProperties.JoinClubAddsOneMember | src/main/java/org/tribenet/tribenet/service/ClubService.java:108-122 | a successful join adds one member and no admin, and the same user joining again is refused |
| ClubProperties.LeaveClubKeepsConsistent | src/main/java/org/tribenet/tribenet/service/ClubService.java:129-134 | leaving keeps every club with an admin; afterwards the user is not a member and the club has one member less |
| ClubProperties.PromoteMemberKeepsConsistent | src/main/java/org/tribenet/tribenet/service/ClubService.java:160-161 | a promotion keeps the store consistent |
| ClubProperties.PromotedRow | src/main/java/org/tribenet/tribenet/service/ClubService.java:160-161 | a successful promotion saves the target's row with the ADMIN role |
| ClubProperties.PromoteMemberAddsOneAdmin | src/main/java/org/tribenet/tribenet/service/ClubService.java:148-162 | after a promotion the target is a club admin, the admin count rose by one and no member count changed |
| ClubProperties.RemoveMemberKeepsConsistent | src/main/java/org/tribenet/tribenet/service/ClubService.java:165-185 | a removal keeps every club with an admin; the target is no longer a member and the club has one member less |
| ClubProperties.UpdateIgnoresSystemRole | src/main/java/org/tribenet/tribenet/service/ClubService.java:67-93 | the caller's system role makes no difference to an update |
| ClubProperties.PromoteIgnoresSystemRole | src/main/java/org/tribenet/tribenet/service/ClubService.java:148-162 | the caller's system role makes no difference to a promotion |
| ClubProperties.RemoveIgnoresSystemRole | src/main/java/org/tribenet/tribenet/service/ClubService.java:165-185 | the caller's system role makes no difference to a removal |
| ClubProperties.DeleteIgnoresClubRoles | src/main/java/org/tribenet/tribenet/service/ClubService.java:96-105 | the club memberships make no difference to whether deleteClub succeeds |
| ClubProperties.LastAdminScenario | src/main/java/org/tribenet/tribenet/service/ClubService.java:33-185 | A creates a club, B joins, A removes B (both succeed); A, now the only admin, cannot leave and the store is unchanged |
| ClubProperties.ScenarioJoin | src/main/java/org/tribenet/tribenet/service/ClubService.java:108-122 | a second user can join a club just created by someone else |
| ClubProperties.ScenarioRemove | src/main/java/org/tribenet/tribenet/service/ClubService.java:125-185 | a sole admin removing a plain member succeeds, and the admin then cannot leave |
| ClubService.CreateClub | src/main/java/org/tribenet/tribenet/service/ClubService.java:33-52 | for a stored creator, ends in the state and returns the view CreateClub gives; keeps every club with an admin |
| ClubService.Patch | src/main/java/org/tribenet/tribenet/service/ClubService.java:75-89 | the five field-by-field overwrites give ApplyUpdate of the club |
| ClubService.UpdateClub | src/main/java/org/tribenet/tribenet/service/ClubService.java:67-93 | result and new state are those of UpdateClub; keeps every club with an admin |
| ClubService.DeleteClub | src/main/java/org/tribenet/tribenet/service/ClubService.java:96-105 | result and new state are those of DeleteClub; keeps every club with an admin |
| ClubService.JoinClub | src/main/java/org/tribenet/tribenet/service/ClubService.java:108-122 | for a stored user, result and new state are those of JoinClub; keeps every club with an admin |
| ClubService.LeaveClub | src/main/java/org/tribenet/tribenet/service/ClubService.java:125-135 | result and new state are those of LeaveClub; keeps every club with an admin |
| ClubService.PromoteMember | src/main/java/org/tribenet/tribenet/service/ClubService.java:148-162 | result and new state are those of PromoteMember; keeps every club with an admin |
| ClubService.RemoveMember | src/main/java/org/tribenet/tribenet/service/ClubService.java:165-185 | result and new state are those of RemoveMember; keeps every club with an admin |
| UserService.LoadUserByUsername | src/main/java/org/tribenet/tribenet/service/UserService.java:29-37 | fails iff no user has the username; otherwise the principal of a stored user with that name |
| UserService.LoadUserByUsernameFindsEachUser | src/main/java/org/tribenet/tribenet/service/UserService.java:29-37 | with unique usernames, every stored user is loaded by its own name |
| UserService.ConvertToUserResponseDTO | src/main/java/org/tribenet/tribenet/service/UserService.java:68-76 | the view carries the user's public columns and a role name that reads back as the role |
| UserService.ConvertAll | src/main/java/org/tribenet/tribenet/service/UserService.java:45-47 | one view per user, position by position |
| UserService.ConvertAllMembers | src/main/java/org/tribenet/tribenet/service/UserService.java:45-47 | every user's view is in the list, and every entry is some user's view |
| UserService.GetAllUsers | src/main/java/org/tribenet/tribenet/service/UserService.java:43-48 | fails iff the principal's username is unknown; otherwise contains every other user's view, never the caller's |
| UserService.GetUserById | src/main/java/org/tribenet/tribenet/service/UserService.java:50-53 | empty iff no user has the id; otherwise that user's view |
| UserService.ConvertToClubResponseDTO | src/main/java/org/tribenet/tribenet/service/UserService.java:78-90 | the club's columns, the user's club role by a name that reads back, and the club's member count |
| UserService.ClubsOf | src/main/java/org/tribenet/tribenet/service/UserService.java:57-59 | one club view per membership, position by position |
| UserService.GetUserClubs | src/main/java/org/tribenet/tribenet/service/UserService.java:55-61 | empty iff the user is absent; otherwise one entry per membership of the user |
| UserService.UserClubsAreMemberships | src/main/java/org/tribenet/tribenet/service/UserService.java:55-61 | each listed club is one the user belongs to, with the member count the club's own view reports |
| UserService.UserClubEntry | src/main/java/org/tribenet/tribenet/service/UserService.java:55-61 | each entry names the club of the membership at the same position |
| UserService.MembershipsAreUserClubs | src/main/java/org/tribenet/tribenet/service/UserService.java:55-61 | every club the user belongs to is listed |
| AuthSpec.ConvertRegisterDTOToEntity | src/main/java/org/tribenet/tribenet/service/AuthService.java:70-78 | copies name, username and email, stores the encoded password, and defaults the role to USER |
| AuthSpec.RegisterUser | src/main/java/org/tribenet/tribenet/service/AuthService.java:39-50 | 409 "Username already exists" iff the username is taken, with no change; otherwise the user is appended and the success body names it |
| AuthSpec.RegisterThenLoad | src/main/java/org/tribenet/tribenet/service/AuthService.java:39-50 | registration keeps the store consistent; the new user then loads by name, and registering the name again is refused |
| AuthService.RegisterUser | src/main/java/org/tribenet/tribenet/service/AuthService.java:39-50 | response and new state are those of AuthSpec.RegisterUser |
| AdminSpec.GetAllUsersAdmin | src/main/java/org/tribenet/tribenet/service/AdminService.java:27-35 | Unauthorized iff the caller is not a system ADMIN; otherwise every user's view, in table order |
| AdminSpec.DeleteUser | src/main/java/org/tribenet/tribenet/service/AdminService.java:38-51 | Unauthorized iff not ADMIN or deleting oneself; NotFound iff ADMIN and the user is absent; otherwise exactly that user row and the user's memberships go |
| AdminSpec.DeleteClubAdmin | src/main/java/org/tribenet/tribenet/service/AdminService.java:54-64 | Unauthorized iff not ADMIN; NotFound iff ADMIN and the club is absent; otherwise the club and its rows go |
| AdminSpec.DeleteUserRemovesOne | src/main/java/org/tribenet/tribenet/service/AdminService.java:50 | a deletion keeps the schema constraints, removes exactly one user and exactly that user's memberships, and keeps every club |
| AdminSpec.DeleteUserKeepsAdminIff | src/main/java/org/tribenet/tribenet/service/AdminService.java:38-51 | after a successful user deletion, a club has an admin exactly when some admin row of it belongs to another user |
| AdminSpec.DeleteSoleAdminOrphansClub | src/main/java/org/tribenet/tribenet/service/AdminService.java:38-51 | from a consistent store, deleting the user who holds every admin row of a club succeeds and leaves that club with no admin |
| AdminSpec.ClubDeletesAgree | src/main/java/org/tribenet/tribenet/service/AdminService.java:54-64 | for an ADMIN both club deletions agree; they differ only for a non-ADMIN asking for a missing club |
| AdminSpec.DeleteClubAdminKeepsConsistent | src/main/java/org/tribenet/tribenet/service/AdminService.java:63 | the forced deletion keeps the store consistent |
| AdminService.DeleteUser | src/main/java/org/tribenet/tribenet/service/AdminService.java:38-51 | result and new state are those of AdminSpec.DeleteUser |
| AdminService.DeleteClubAdmin | src/main/java/org/tribenet/tribenet/service/AdminService.java:54-64 | result and new state are those of AdminSpec.DeleteClubAdmin; keeps every club with an admin |
| Html.EscapeChar | src/main/resources/static/script.js:1065-1071 | a special character becomes an entity of the form &...; with no markup character; others stay |
| Html.Escape | src/main/resources/static/script.js:1072 | the result is no shorter and has no markup character; text without special characters is unchanged |
| Html.EscapeHtml | src/main/resources/static/script.js:1063-1073 | a missing text gives the empty string; any other text reads back as itself and has no markup character |
| Html.DecodeEntity | src/main/resources/static/script.js:1065-1071 | a recognized entity has a length between 1 and the rest of the text |
| Html.DecodeEscapedChar | src/main/resources/static/script.js:1065-1071 | each entity of the map decodes back to its character |
| Html.UnescapeEscape | src/main/resources/static/script.js:1072 | unescaping escaped text gives the text back |
| Html.EscapeInjective | src/main/resources/static/script.js:1072 | different texts escape to different markup |
| Html.EscapeConcat | src/main/resources/static/script.js:1072 | escaping the parts and joining them equals escaping the whole |
| Engine.ApplyKeepsConsistent | src/main/java/org/tribenet/tribenet/controller/ClubController.java:105-108 | every request keeps the store consistent; an unknown principal changes nothing |
| Engine.PerformKeepsConsistent | src/main/java/org/tribenet/tribenet/controller/ClubController.java:105-108 | every club action and club deletion by a stored caller keeps the store consistent |
| Engine.Run | src/main/java/org/tribenet/tribenet/service/ClubService.java:33-185 | any sequence of registrations, club actions and club deletions from a consistent store leaves it consistent |
| Engine.RunConcat | src/main/java/org/tribenet/tribenet/service/ClubService.java:33-185 | running two batches in turn equals running them joined |
| Engine.EmptyIsConsistent | src/main/java/org/tribenet/tribenet/model/Club.java:15-17 | the empty schema is consistent |
| Engine.EveryRunKeepsAnAdmin | src/main/java/org/tribenet/tribenet/service/ClubService.java:125-185 | from an empty schema, every club has an admin after any run of those requests |

## Left out

- Controllers, `SecurityConfig`, JWT handling, `loginUser` and the payment endpoints are left out. The authenticated caller is a parameter of each service operation. `Engine.Apply` looks the caller up by the principal's username, as the controllers do (ClubController.java:105-108), and the service methods that insert a row for the caller require the caller to be stored.
- Exception messages are left out. Errors are modelled by kind only: ResourceNotFound, Unauthorized, BadRequest.
- `LocalDateTime.now()` is the parameter `now`, and the `PasswordEncoder` is the function parameter `encode`.
- `BigDecimal` prices are integers. No operation computes with them.
- The `Integer` result of `countByClubId` is an unbounded `nat`. No 32-bit overflow is modelled.
- Transactions, isolation and concurrent requests are left out. Each service call is one atomic step on the store.
- JPA lazy loading and the persistence context are left out. Entities are values read from the snapshot.
- `UserPrincipal` keeps the user; its granted authorities are not modelled.
- In `script.js`, only `escapeHtml` is modelled. Its argument is a string or missing (`Option<string>`). Other falsy values (0, false), which JavaScript also maps to `''`, and `toString()` of non-strings are not modelled.
- `ClubSpec.CreateClub` requires a request that passes validation. Its only caller validates with `@Valid` (ClubController.java:30). What `createClub` would do with null fields, such as the unboxing failure of a null `free`, is not modelled. `Engine.Apply` treats an invalid creation request as refused.
- `ClubSpec.GetClubMembers` requires that each of the club's rows names a stored user. `WellFormed` guarantees this. The failure of `convertToMemberResponseDTO` on a row whose user is missing is not modelled.
- `UserService.GetAllUsers` returns None when the principal's username matches no user. This is where the source dereferences null.
- `UserService.ConvertToClubResponseDTO` counts the club's rows. The source's null check on `club.getMembers()` (UserService.java:88) never applies, because the `members` collection of a loaded club is its rows.
- `ClubProperties.DeleteIgnoresClubRoles` states only that the result ignores the membership table, not the whole step, because the cascade does read it.
- `AdminSpec.DeleteUser` takes the `User` entity's `memberships` relation to cascade, so the user's rows go with the user. User.java is not part of this model. If that relation does not cascade, the foreign key of `user_club.user_id` (UserClub.java:20-22) refuses the deletion of a user who has memberships. That refusal is not modelled.
- `Engine.Run` and `Engine.EveryRunKeepsAnAdmin` cover registrations, the club actions and the administrator's club deletion, but not user deletion, which can leave a club without an admin (`AdminSpec.DeleteSoleAdminOrphansClub`).
