/** FamilyChat.Application/Users/Queries/GetUserDetails: one user's profile. */
module GetUserDetailsQueryHandler {
  import opened Wrappers
  import opened Primitives
  import opened UserEntity
  import UserRepository

  datatype GetUserDetailsQuery = GetUserDetailsQuery(UserId: Guid)

  /** The profile returned; it has neither device token nor password. */
  datatype GetUserDetailsResponse = GetUserDetailsResponse(
    Id: Guid, Email: string, FirstName: string, LastName: string,
    CreatedAt: Instant, LastLoginAt: Option<Instant>, IsActive: bool)

  /** The profile of one user, field for field. */
  function Details(u: User): GetUserDetailsResponse
    reads u
  {
    GetUserDetailsResponse(u.Id, u.Email, u.FirstName, u.LastName, u.CreatedAt, u.LastLoginAt, u.IsActive)
  }

  /** `Handle(query)`: throws InvalidOperationException exactly when no stored
      user has the id; otherwise the profile of a stored user with that id. A
      function of the store, so it changes nothing. */
  function Handle(users: seq<User>, query: GetUserDetailsQuery): (r: Result<GetUserDetailsResponse, Exception>)
    reads users
    ensures r.Failure? <==> !UserRepository.Exists(users, query.UserId)
    ensures r.Failure? ==> r.error == InvalidOperationException(UserNotFound(query.UserId))
    ensures r.Success? ==> exists u :: u in users && u.Id == query.UserId && r.value == Details(u)
  {
    match UserRepository.GetById(users, query.UserId)
    case None => Failure(InvalidOperationException(UserNotFound(query.UserId)))
    case Some(u) => Success(Details(u))
  }

  /** With distinct keys, the profile returned for a stored user's id is that user's. */
  lemma HandleReturnsTheUser(users: seq<User>, u: User)
    requires UserRepository.DistinctIds(users) && u in users
    ensures Handle(users, GetUserDetailsQuery(u.Id)) == Success(Details(u))
  {
    UserRepository.GetByIdIsTheMatch(users, u);
  }
}
