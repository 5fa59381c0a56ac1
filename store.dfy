/** The persistent store behind the repositories: the user, chat and message
    tables, with the constraints FamilyChat.Infrastructure/Data/ApplicationDbContext.cs
    declares (keys, the unique email index, the (ChatId, UserId) member key and the
    foreign keys). The entities' own invariants (`User.Valid`, `Chat.Valid`,
    `Message.Valid`) stay with the entities. `Add*` is the base repository's
    `AddAsync`: it inserts the entity when the constraints allow it, and later
    reads see it. */
module Database {
  import opened Wrappers
  import opened Primitives
  import opened UserEntity
  import opened MessageEntity
  import opened ChatEntity
  import UserRepository
  import ChatRepository
  import MessageRepository

  /** The user table: distinct keys and distinct emails (the unique index). */
  predicate UsersValid(users: seq<User>) {
    UserRepository.DistinctIds(users) && UserRepository.DistinctEmails(users)
  }

  /** Every member of `c` is a stored user. */
  ghost predicate MembersAreUsers(users: seq<User>, c: Chat)
    reads c
  {
    forall k :: 0 <= k < |c.Members| ==> UserRepository.Exists(users, c.Members[k].UserId)
  }

  /** The foreign key of one chat: its creator is a stored user. */
  predicate ChatRefsValid(users: seq<User>, c: Chat) {
    UserRepository.Exists(users, c.CreatedById)
  }

  /** The chat table: distinct keys, and every chat's creator is stored. The
      member rows (their key and their user references) are checked when a chat
      is inserted (`CanAddChat`); after that a chat's members change only
      through its own methods, which keep the (ChatId, UserId) key as part of
      `Chat.Valid`. */
  predicate ChatsValid(users: seq<User>, chats: seq<Chat>) {
    && ChatRepository.DistinctIds(chats)
    && (forall i :: 0 <= i < |chats| ==> ChatRefsValid(users, chats[i]))
  }

  /** The foreign keys of one message: its chat and its sender are stored. */
  predicate MessageRefsValid(users: seq<User>, chats: seq<Chat>, m: Message) {
    ChatRepository.Exists(chats, m.ChatId) && UserRepository.Exists(users, m.SenderId)
  }

  /** The message table: distinct keys, and every message's references resolve.
      (The message's own invariant is the entity's business alone: `Edit` keeps it.) */
  predicate MessagesValid(users: seq<User>, chats: seq<Chat>, ms: seq<Message>) {
    && MessageRepository.DistinctIds(ms)
    && (forall i :: 0 <= i < |ms| ==> MessageRefsValid(users, chats, ms[i]))
  }

  /** The member rows of `c` satisfy the (ChatId, UserId) key: each row belongs
      to `c` and no user has two rows. */
  ghost predicate MemberKeyHolds(c: Chat)
    reads c
  {
    && DistinctUsers(c.Members)
    && (forall k :: 0 <= k < |c.Members| ==> c.Members[k].ChatId == c.Id)
  }

  /** The chat constraints for inserting `c`: a new key, a stored creator, member
      rows that satisfy the member key, and stored members. */
  ghost predicate CanAddChat(users: seq<User>, chats: seq<Chat>, c: Chat)
    reads c
  {
    && !ChatRepository.Exists(chats, c.Id)
    && UserRepository.Exists(users, c.CreatedById)
    && MemberKeyHolds(c)
    && MembersAreUsers(users, c)
  }

  class Store {
    var Users: seq<User>
    var Chats: seq<Chat>
    var Messages: seq<Message>

    predicate Valid()
      reads this
    {
      UsersValid(Users) && ChatsValid(Users, Chats) && MessagesValid(Users, Chats, Messages)
    }

    constructor ()
      ensures Valid() && Users == [] && Chats == [] && Messages == []
    {
      Users, Chats, Messages := [], [], [];
    }

    /** Inserts a user unless its key or its email is already stored (the
        index compares the stored strings as they are). */
    method AddUser(u: User) returns (ok: bool)
      requires Valid()
      modifies this`Users
      ensures Valid()
      ensures ok <==> !UserRepository.Exists(old(Users), u.Id) && !UserRepository.HasEmail(old(Users), u.Email)
      ensures Users == if ok then old(Users) + [u] else old(Users)
    {
      ok := !UserRepository.Exists(Users, u.Id) && !UserRepository.HasEmail(Users, u.Email);
      if ok {
        AppendUserKeepsValid(Users, Chats, Messages, u);
        Users := Users + [u];
      }
    }

    /** Inserts a chat (with its member rows) unless its key is taken, its
        creator is not a stored user, or a member row breaks the member key or
        names a user who is not stored. */
    method AddChat(c: Chat) returns (ok: bool)
      requires Valid()
      modifies this`Chats
      ensures Valid()
      ensures ok <==> old(CanAddChat(Users, Chats, c))
      ensures Chats == if ok then old(Chats) + [c] else old(Chats)
    {
      ok := !ChatRepository.Exists(Chats, c.Id)
            && UserRepository.Exists(Users, c.CreatedById)
            && DistinctUsers(c.Members)
            && (forall k :: 0 <= k < |c.Members| ==> c.Members[k].ChatId == c.Id)
            && forall k :: 0 <= k < |c.Members| ==> UserRepository.Exists(Users, c.Members[k].UserId);
      if ok {
        AppendChatKeepsValid(Users, Chats, Messages, c);
        Chats := Chats + [c];
      }
    }

    /** Inserts a message unless its key is taken or its chat or sender is not stored. */
    method AddMessage(m: Message) returns (ok: bool)
      requires Valid()
      modifies this`Messages
      ensures Valid()
      ensures ok <==> && !MessageRepository.Exists(old(Messages), m.Id)
                      && ChatRepository.Exists(Chats, m.ChatId)
                      && UserRepository.Exists(Users, m.SenderId)
      ensures Messages == if ok then old(Messages) + [m] else old(Messages)
    {
      ok := !MessageRepository.Exists(Messages, m.Id)
            && ChatRepository.Exists(Chats, m.ChatId)
            && UserRepository.Exists(Users, m.SenderId);
      if ok {
        AppendMessageKeepsValid(Users, Chats, Messages, m);
        Messages := Messages + [m];
      }
    }
  }

  /** A chat with two member rows for one user breaks the member key, so it cannot be inserted. */
  lemma DuplicateMemberRowsRejected(users: seq<User>, chats: seq<Chat>, c: Chat, j: nat, k: nat)
    requires j < k < |c.Members| && c.Members[j].UserId == c.Members[k].UserId
    ensures !CanAddChat(users, chats, c)
  {
  }

  lemma AppendUserKeepsValid(users: seq<User>, chats: seq<Chat>, ms: seq<Message>, u: User)
    requires UsersValid(users) && ChatsValid(users, chats) && MessagesValid(users, chats, ms)
    requires !UserRepository.Exists(users, u.Id) && !UserRepository.HasEmail(users, u.Email)
    ensures UsersValid(users + [u]) && ChatsValid(users + [u], chats) && MessagesValid(users + [u], chats, ms)
  {
    var r := users + [u];
    assert r[|users|] == u;
    assert forall i :: 0 <= i < |users| ==> r[i] == users[i];
    UserRepository.ExistsAfterInsert(users, u);
  }

  lemma AppendChatKeepsValid(users: seq<User>, chats: seq<Chat>, ms: seq<Message>, c: Chat)
    requires ChatsValid(users, chats) && MessagesValid(users, chats, ms)
    requires CanAddChat(users, chats, c)
    ensures ChatsValid(users, chats + [c]) && MessagesValid(users, chats + [c], ms)
  {
    var r := chats + [c];
    assert r[|chats|] == c;
    assert forall i :: 0 <= i < |chats| ==> r[i] == chats[i];
    ChatRepository.ExistsAfterInsert(chats, c);
  }

  lemma AppendMessageKeepsValid(users: seq<User>, chats: seq<Chat>, ms: seq<Message>, m: Message)
    requires MessagesValid(users, chats, ms)
    requires MessageRefsValid(users, chats, m) && !MessageRepository.Exists(ms, m.Id)
    ensures MessagesValid(users, chats, ms + [m])
  {
    var r := ms + [m];
    assert r[|ms|] == m;
    assert forall i :: 0 <= i < |ms| ==> r[i] == ms[i];
  }
}
