/** FamilyChat.Application/Users/Commands/CreateUser: registering a user. */
module CreateUserCommandHandler {
  import opened Wrappers
  import opened Text
  import opened Primitives
  import opened UserEntity
  import UserRepository
  import opened Database

  datatype CreateUserCommand = CreateUserCommand(Email: string, FirstName: string, LastName: string, Password: string)

  /** The projection handed back to the caller; it has no password. */
  datatype CreateUserResponse = CreateUserResponse(Id: Guid, Email: string, FirstName: string, LastName: string)

  /** `Handle(command)`: throws InvalidOperationException when a user with the
      command's email (compared after lower-casing) is stored; then lets the
      `User` constructor reject blank fields; otherwise inserts exactly one user
      and returns its projection. `newId` and `now` stand for the fresh Guid and
      the clock reading the constructor takes. */
  method Handle(store: Store, command: CreateUserCommand, newId: Guid, now: Instant)
    returns (r: Result<CreateUserResponse, Exception>)
    requires store.Valid()
    requires !UserRepository.Exists(store.Users, newId)
    modifies store`Users
    ensures store.Valid()
    ensures UserRepository.ExistsByEmail(old(store.Users), command.Email) ==>
              r == Failure(InvalidOperationException(DuplicateEmail(command.Email)))
    ensures !UserRepository.ExistsByEmail(old(store.Users), command.Email)
            && UserArgumentError(command.Email, command.FirstName, command.LastName).Some? ==>
              r == Failure(UserArgumentError(command.Email, command.FirstName, command.LastName).value)
    ensures r.Failure? ==> store.Users == old(store.Users)
    ensures r.Success? ==>
              && !UserRepository.ExistsByEmail(old(store.Users), command.Email)
              && UserArgumentError(command.Email, command.FirstName, command.LastName).None?
    ensures r.Success? ==>
              && |store.Users| == |old(store.Users)| + 1
              && store.Users[..|old(store.Users)|] == old(store.Users)
              && var u := store.Users[|old(store.Users)|];
                 && fresh(u) && u.IsActive
                 && r.value == CreateUserResponse(u.Id, u.Email, u.FirstName, u.LastName)
                 && u.Id == newId && u.Email == ToLowerInvariant(command.Email)
                 && u.FirstName == command.FirstName && u.LastName == command.LastName
    ensures r.Success? ==> UserRepository.ExistsByEmail(store.Users, command.Email)
  {
    if UserRepository.ExistsByEmail(store.Users, command.Email) {
      return Failure(InvalidOperationException(DuplicateEmail(command.Email)));
    }
    var created := User.Create(newId, command.Email, command.FirstName, command.LastName,
                               Some(command.Password), now);
    if created.Failure? {
      return Failure(created.error);
    }
    var user := created.value;
    var ok := store.AddUser(user);
    assert ok;
    assert store.Users[|old(store.Users)|] == user;
    return Success(CreateUserResponse(user.Id, user.Email, user.FirstName, user.LastName));
  }
}
