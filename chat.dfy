/** FamilyChat.Domain/Entities/Chat.cs and FamilyChat.Domain/Entities/ChatMember.cs */
module ChatEntity {
  import opened Wrappers
  import opened Text
  import opened Primitives
  import opened UserEntity
  import opened MessageEntity

  class ChatMember {
    const ChatId: Guid
    const Chat: Chat
    const UserId: Guid
    const User: User
    const JoinedAt: Instant
    var IsAdmin: bool

    /** The constructor once its null checks have passed; `Create` performs them. */
    constructor (chat: Chat, user: User, now: Instant, isAdmin: bool := false)
      ensures ChatId == chat.Id && Chat == chat
      ensures UserId == user.Id && User == user
      ensures JoinedAt == now && IsAdmin == isAdmin
    {
      ChatId := chat.Id;
      Chat := chat;
      UserId := user.Id;
      User := user;
      JoinedAt := now;
      IsAdmin := isAdmin;
    }

    /** `new ChatMember(chat, user, isAdmin = false)`: throws ArgumentNullException
        for a null chat, then for a null user. */
    static method Create(chat: Chat?, user: User?, now: Instant, isAdmin: bool := false)
      returns (r: Result<ChatMember, Exception>)
      ensures chat == null ==> r == Failure(ArgumentNullException("chat"))
      ensures chat != null && user == null ==> r == Failure(ArgumentNullException("user"))
      ensures chat != null && user != null ==>
                && r.Success? && fresh(r.value)
                && r.value.ChatId == chat.Id && r.value.Chat == chat
                && r.value.UserId == user.Id && r.value.User == user
                && r.value.JoinedAt == now && r.value.IsAdmin == isAdmin
    {
      if chat == null {
        return Failure(ArgumentNullException("chat"));
      }
      if user == null {
        return Failure(ArgumentNullException("user"));
      }
      var m := new ChatMember(chat, user, now, isAdmin);
      return Success(m);
    }

    method MakeAdmin()
      modifies this`IsAdmin
      ensures IsAdmin
    {
      IsAdmin := true;
    }

    method RemoveAdmin()
      modifies this`IsAdmin
      ensures !IsAdmin
    {
      IsAdmin := false;
    }
  }

  /** `Members.Any(m => m.UserId == userId)`. */
  predicate HasUser(ms: seq<ChatMember>, userId: Guid) {
    exists i :: 0 <= i < |ms| && ms[i].UserId == userId
  }

  /** The member user-ids are pairwise distinct: the (ChatId, UserId) key of the
      member table. */
  predicate DistinctUsers(ms: seq<ChatMember>) {
    forall i, j :: 0 <= i < j < |ms| ==> ms[i].UserId != ms[j].UserId
  }

  /** The user-id column of a member list. */
  function UserIds(ms: seq<ChatMember>): seq<Guid> {
    seq(|ms|, i requires 0 <= i < |ms| => ms[i].UserId)
  }

  /** The position `Members.FirstOrDefault(m => m.UserId == userId)` finds. */
  function FirstIndexOf(ms: seq<ChatMember>, userId: Guid): (r: Option<nat>)
    ensures r.None? <==> !HasUser(ms, userId)
    ensures r.Some? ==> r.value < |ms| && ms[r.value].UserId == userId
    ensures r.Some? ==> forall j :: 0 <= j < r.value ==> ms[j].UserId != userId
  {
    if ms == [] then None
    else if ms[0].UserId == userId then Some(0)
    else match FirstIndexOf(ms[1..], userId)
      case None => None
      case Some(k) => Some(k + 1)
  }

  /** `Members.Remove(member)` for the member found by `FirstIndexOf`. */
  function WithoutUser(ms: seq<ChatMember>, userId: Guid): seq<ChatMember> {
    match FirstIndexOf(ms, userId)
    case None => ms
    case Some(i) => ms[..i] + ms[i + 1..]
  }

  /** Appending a member whose user is new keeps the user-ids distinct, and the
      new user is then a member. */
  lemma AppendKeepsDistinct(ms: seq<ChatMember>, m: ChatMember)
    requires DistinctUsers(ms) && !HasUser(ms, m.UserId)
    ensures DistinctUsers(ms + [m])
    ensures HasUser(ms + [m], m.UserId)
    ensures forall u :: HasUser(ms + [m], u) <==> HasUser(ms, u) || u == m.UserId
  {
    var r := ms + [m];
    assert r[|ms|].UserId == m.UserId;
    forall u | HasUser(r, u) ensures HasUser(ms, u) || u == m.UserId {
      var i :| 0 <= i < |r| && r[i].UserId == u;
      if i < |ms| { assert ms[i].UserId == u; }
    }
    forall u | HasUser(ms, u) ensures HasUser(r, u) {
      var i :| 0 <= i < |ms| && ms[i].UserId == u;
      assert r[i].UserId == u;
    }
  }

  /** Removing a member of a chat whose user-ids are distinct drops exactly that
      user's entry: the user is no longer a member, every other member stays, in
      order, and the user-ids stay distinct. */
  lemma WithoutUserRemovesOnlyThatUser(ms: seq<ChatMember>, userId: Guid)
    requires DistinctUsers(ms) && HasUser(ms, userId)
    ensures var r := WithoutUser(ms, userId);
      && |r| == |ms| - 1
      && DistinctUsers(r)
      && !HasUser(r, userId)
      && (forall u :: u != userId ==> (HasUser(r, u) <==> HasUser(ms, u)))
      && (forall m :: m in ms && m.UserId != userId ==> m in r)
      && (forall m :: m in r ==> m in ms)
      && (exists i :: 0 <= i < |ms| && ms[i].UserId == userId && r == ms[..i] + ms[i + 1..])
  {
    var i := FirstIndexOf(ms, userId).value;
    var r := WithoutUser(ms, userId);
    assert r == ms[..i] + ms[i + 1..];
    assert forall k :: 0 <= k < i ==> r[k] == ms[k];
    assert forall k :: i <= k < |r| ==> r[k] == ms[k + 1];
    forall u | HasUser(r, u) ensures HasUser(ms, u) && u != userId {
      var k :| 0 <= k < |r| && r[k].UserId == u;
      if k < i { assert ms[k].UserId == u; } else { assert ms[k + 1].UserId == u; }
    }
    forall u | u != userId && HasUser(ms, u) ensures HasUser(r, u) {
      var k :| 0 <= k < |ms| && ms[k].UserId == u;
      if k < i { assert r[k].UserId == u; } else { assert k != i; assert r[k - 1].UserId == u; }
    }
    forall m | m in ms && m.UserId != userId ensures m in r {
      var k :| 0 <= k < |ms| && ms[k] == m;
      if k < i { assert r[k] == m; } else { assert k != i; assert r[k - 1] == m; }
    }
  }

  /** AddMember(u) followed by RemoveMember(u) gives back the original list. */
  lemma AddThenRemoveRestores(ms: seq<ChatMember>, m: ChatMember)
    requires !HasUser(ms, m.UserId)
    ensures WithoutUser(ms + [m], m.UserId) == ms
  {
    var r := ms + [m];
    assert r[|ms|].UserId == m.UserId;
    assert r[..|ms|] == ms;
  }

  class Chat {
    const Id: Guid
    const Name: string
    const Description: Option<string>
    const IsDefault: bool
    const CreatedAt: Instant
    const CreatedById: Guid
    const CreatedBy: User
    var Members: seq<ChatMember>
    var Messages: seq<Message>

    /** The chat invariant: a non-blank name, the creator reference matches its
        id, and the members are entries of this chat with distinct user-ids. */
    ghost predicate Valid()
      reads this
    {
      && !IsNullOrWhiteSpace(Name)
      && CreatedById == CreatedBy.Id
      && DistinctUsers(Members)
      && (forall i :: 0 <= i < |Members| ==> Members[i].ChatId == Id)
    }

    /** The constructor once its checks have passed; `Create` performs them. */
    constructor (id: Guid, name: string, description: Option<string>, createdBy: User,
                 now: Instant, isDefault: bool := false)
      requires !IsNullOrWhiteSpace(name)
      ensures Valid()
      ensures Id == id && Name == name && Description == description && IsDefault == isDefault
      ensures CreatedAt == now && CreatedById == createdBy.Id && CreatedBy == createdBy
      ensures Members == [] && Messages == []
    {
      Id := id;
      Name := name;
      Description := description;
      IsDefault := isDefault;
      CreatedAt := now;
      CreatedById := createdBy.Id;
      CreatedBy := createdBy;
      Members := [];
      Messages := [];
    }

    /** `new Chat(name, description, createdBy, isDefault = false)`: throws
        ArgumentException for a blank name, then ArgumentNullException for a
        null creator; otherwise a fresh chat with no members (the creator is not
        added) and no messages. */
    static method Create(id: Guid, name: string, description: Option<string>, createdBy: User?,
                         now: Instant, isDefault: bool := false)
      returns (r: Result<Chat, Exception>)
      ensures IsNullOrWhiteSpace(name) ==> r == Failure(ArgumentException("name"))
      ensures !IsNullOrWhiteSpace(name) && createdBy == null ==>
                r == Failure(ArgumentNullException("createdBy"))
      ensures !IsNullOrWhiteSpace(name) && createdBy != null ==>
                && r.Success? && fresh(r.value) && r.value.Valid()
                && r.value.Id == id && r.value.Name == name
                && r.value.Description == description && r.value.IsDefault == isDefault
                && r.value.CreatedAt == now && r.value.CreatedById == createdBy.Id
                && r.value.CreatedBy == createdBy
                && r.value.Members == [] && r.value.Messages == []
    {
      if IsNullOrWhiteSpace(name) {
        return Failure(ArgumentException("name"));
      }
      if createdBy == null {
        return Failure(ArgumentNullException("createdBy"));
      }
      var c := new Chat(id, name, description, createdBy, now, isDefault);
      return Success(c);
    }

    /** Throws for a null user, and for a user who is already a member (leaving
        the members unchanged); otherwise appends one entry for the user. */
    method AddMember(user: User?, now: Instant) returns (r: Outcome<Exception>)
      requires Valid()
      modifies this`Members
      ensures Valid()
      ensures user == null ==> r == Fail(ArgumentNullException("user")) && Members == old(Members)
      ensures user != null && HasUser(old(Members), user.Id) ==>
                r == Fail(InvalidOperationException(AlreadyMember)) && Members == old(Members)
      ensures user != null && !HasUser(old(Members), user.Id) ==>
                && r == Pass
                && |Members| == |old(Members)| + 1
                && Members[..|old(Members)|] == old(Members)
                && var m := Members[|old(Members)|];
                   fresh(m) && m.UserId == user.Id && m.User == user && m.ChatId == Id
                   && m.Chat == this && m.JoinedAt == now && !m.IsAdmin
      ensures forall u :: HasUser(Members, u) <==>
                HasUser(old(Members), u) || (user != null && r == Pass && u == user.Id)
    {
      if user == null {
        return Fail(ArgumentNullException("user"));
      }
      if HasUser(Members, user.Id) {
        return Fail(InvalidOperationException(AlreadyMember));
      }
      var m := new ChatMember(this, user, now);
      AppendKeepsDistinct(Members, m);
      Members := Members + [m];
      assert Members[..|old(Members)|] == old(Members);
      return Pass;
    }

    /** Throws for a null user, and for a user who is not a member (changing
        nothing); otherwise removes that user's entry. */
    method RemoveMember(user: User?) returns (r: Outcome<Exception>)
      requires Valid()
      modifies this`Members
      ensures Valid()
      ensures user == null ==> r == Fail(ArgumentNullException("user")) && Members == old(Members)
      ensures user != null && !HasUser(old(Members), user.Id) ==>
                r == Fail(InvalidOperationException(NotMember)) && Members == old(Members)
      ensures user != null && HasUser(old(Members), user.Id) ==>
                && r == Pass
                && Members == WithoutUser(old(Members), user.Id)
                && !HasUser(Members, user.Id)
                && (forall u :: u != user.Id ==> (HasUser(Members, u) <==> HasUser(old(Members), u)))
    {
      if user == null {
        return Fail(ArgumentNullException("user"));
      }
      var found := FirstIndexOf(Members, user.Id);
      if found.None? {
        return Fail(InvalidOperationException(NotMember));
      }
      WithoutUserRemovesOnlyThatUser(Members, user.Id);
      Members := WithoutUser(Members, user.Id);
      return Pass;
    }
  }
}
