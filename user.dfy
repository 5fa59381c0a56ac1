/** FamilyChat.Domain/Entities/User.cs */
module UserEntity {
  import opened Wrappers
  import opened Text
  import opened Primitives

  /** The exception the `User` constructor throws for these arguments, checked
      in the source's order (email, then first name, then last name), or None. */
  function UserArgumentError(email: string, firstName: string, lastName: string): Option<Exception> {
    if IsNullOrWhiteSpace(email) then Some(ArgumentException("email"))
    else if IsNullOrWhiteSpace(firstName) then Some(ArgumentException("firstName"))
    else if IsNullOrWhiteSpace(lastName) then Some(ArgumentException("lastName"))
    else None
  }

  class User {
    const Id: Guid
    const Email: string
    const FirstName: string
    const LastName: string
    const CreatedAt: Instant
    var LastLoginAt: Option<Instant>
    var IsActive: bool
    var DeviceToken: Option<string>

    /** What every constructed user satisfies: non-blank fields and a
        lower-cased email. */
    predicate Valid() {
      && !IsNullOrWhiteSpace(Email) && IsLowerCase(Email)
      && !IsNullOrWhiteSpace(FirstName)
      && !IsNullOrWhiteSpace(LastName)
    }

    /** The constructor once its argument checks have passed; `Create` performs them. */
    constructor (id: Guid, email: string, firstName: string, lastName: string, now: Instant)
      requires UserArgumentError(email, firstName, lastName) == None
      ensures Valid()
      ensures Id == id && Email == ToLowerInvariant(email)
      ensures FirstName == firstName && LastName == lastName
      ensures CreatedAt == now && IsActive
      ensures LastLoginAt == None && DeviceToken == None
    {
      ToLowerInvariantProperties(email);
      Id := id;
      Email := ToLowerInvariant(email);
      FirstName := firstName;
      LastName := lastName;
      CreatedAt := now;
      IsActive := true;
      LastLoginAt := None;
      DeviceToken := None;
    }

    /** `new User(email, firstName, lastName, passwordHash)`: throws
        ArgumentException for a blank email, first name or last name, in that
        order; otherwise a fresh, active user with the email lower-cased. The
        password hash is accepted and not stored. */
    static method Create(id: Guid, email: string, firstName: string, lastName: string,
                         passwordHash: Option<string>, now: Instant)
      returns (r: Result<User, Exception>)
      ensures UserArgumentError(email, firstName, lastName).Some? ==>
                r == Failure(UserArgumentError(email, firstName, lastName).value)
      ensures UserArgumentError(email, firstName, lastName).None? ==>
                && r.Success? && fresh(r.value) && r.value.Valid()
                && r.value.Id == id && r.value.Email == ToLowerInvariant(email)
                && r.value.FirstName == firstName && r.value.LastName == lastName
                && r.value.CreatedAt == now && r.value.IsActive
                && r.value.LastLoginAt == None && r.value.DeviceToken == None
    {
      if IsNullOrWhiteSpace(email) {
        return Failure(ArgumentException("email"));
      }
      if IsNullOrWhiteSpace(firstName) {
        return Failure(ArgumentException("firstName"));
      }
      if IsNullOrWhiteSpace(lastName) {
        return Failure(ArgumentException("lastName"));
      }
      var u := new User(id, email, firstName, lastName, now);
      return Success(u);
    }

    method UpdateLastLogin(now: Instant)
      modifies this`LastLoginAt
      ensures LastLoginAt == Some(now)
    {
      LastLoginAt := Some(now);
    }

    /** Stores the token exactly as given, null included. */
    method UpdateDeviceToken(deviceToken: Option<string>)
      modifies this`DeviceToken
      ensures DeviceToken == deviceToken
    {
      DeviceToken := deviceToken;
    }

    method Deactivate()
      modifies this`IsActive
      ensures !IsActive
    {
      IsActive := false;
    }

    method Activate()
      modifies this`IsActive
      ensures IsActive
    {
      IsActive := true;
    }
  }
}
