/** FamilyChat.Infrastructure/Data/DatabaseSeeder.cs with the seed data of
    FamilyChat.Infrastructure/Data/StaticMembersConfiguration.cs. */
module DatabaseSeeder {
  import opened Wrappers
  import opened Text
  import opened Primitives
  import opened UserEntity
  import opened ChatEntity
  import UserRepository
  import ChatRepository
  import opened Database

  /** One configured default member. */
  datatype SeedMember = SeedMember(Email: string, FirstName: string, LastName: string, Password: string)

  const DefaultMembers: seq<SeedMember> := [
    SeedMember("mom@family.com", "Mom", "Family", "Mom123!"),
    SeedMember("dad@family.com", "Dad", "Family", "Dad123!"),
    SeedMember("sister@family.com", "Sister", "Family", "Sister123!"),
    SeedMember("brother@family.com", "Brother", "Family", "Brother123!")
  ]

  const DefaultChatName: string := "Family Chat"
  const DefaultChatDescription: string := "Default family chat room"

  /** The configured members pass the `User` constructor's checks. */
  lemma DefaultMembersAreValid()
    ensures forall k :: 0 <= k < |DefaultMembers| ==>
              UserArgumentError(DefaultMembers[k].Email, DefaultMembers[k].FirstName, DefaultMembers[k].LastName) == None
  {
    forall k | 0 <= k < |DefaultMembers|
      ensures UserArgumentError(DefaultMembers[k].Email, DefaultMembers[k].FirstName, DefaultMembers[k].LastName) == None
    {
      var m := DefaultMembers[k];
      assert !IsWhiteSpace(m.Email[0]) && !IsWhiteSpace(m.FirstName[0]) && !IsWhiteSpace(m.LastName[0]);
    }
  }

  /** The configured emails stay pairwise distinct after lower-casing: they
      already differ in their first letter. */
  lemma DefaultEmailsDistinct()
    ensures forall j, k :: 0 <= j < k < |DefaultMembers| ==>
              ToLowerInvariant(DefaultMembers[j].Email) != ToLowerInvariant(DefaultMembers[k].Email)
  {
    forall j, k | 0 <= j < k < |DefaultMembers|
      ensures ToLowerInvariant(DefaultMembers[j].Email) != ToLowerInvariant(DefaultMembers[k].Email)
    {
      assert ToLowerInvariant(DefaultMembers[j].Email)[0] != ToLowerInvariant(DefaultMembers[k].Email)[0];
    }
  }

  /** A stored user seeded from member `m` with id `id`. */
  predicate SeededAs(u: User, m: SeedMember, id: Guid)
    reads u
  {
    && u.Id == id && u.Email == ToLowerInvariant(m.Email) && u.FirstName == m.FirstName && u.LastName == m.LastName
    && u.IsActive
  }

  predicate DistinctGuids(ids: seq<Guid>) {
    forall i, j :: 0 <= i < j < |ids| ==> ids[i] != ids[j]
  }

  /** The id column of a user list. */
  function IdsOf(users: seq<User>): seq<Guid> {
    seq(|users|, i requires 0 <= i < |users| => users[i].Id)
  }

  /** First phase of `SeedAsync`: with no users stored, inserts one user per
      configured member, in order (`userIds` stand for the fresh Guids); with
      any user stored, inserts none. */
  method SeedUsers(store: Store, userIds: seq<Guid>, now: Instant)
    requires store.Valid()
    requires |userIds| == |DefaultMembers| && DistinctGuids(userIds)
    modifies store`Users
    ensures store.Valid()
    ensures old(store.Users) != [] ==> store.Users == old(store.Users)
    ensures old(store.Users) == [] ==>
              && |store.Users| == |DefaultMembers|
              && forall k :: 0 <= k < |DefaultMembers| ==> SeededAs(store.Users[k], DefaultMembers[k], userIds[k])
  {
    if store.Users == [] {
      DefaultMembersAreValid();
      DefaultEmailsDistinct();
      for i := 0 to |DefaultMembers|
        invariant store.Valid()
        invariant |store.Users| == i
        invariant forall k :: 0 <= k < i ==> SeededAs(store.Users[k], DefaultMembers[k], userIds[k])
      {
        var member := DefaultMembers[i];
        var created := User.Create(userIds[i], member.Email, member.FirstName, member.LastName,
                                   Some(member.Password), now);
        assert created.Success?;
        var user := created.value;
        NextSeedIsNew(store.Users, userIds, i);
        var ok := store.AddUser(user);
        assert ok;
      }
    }
  }

  /** After the first `i` members are seeded, the key and the email of member
      `i` are still free. */
  lemma NextSeedIsNew(users: seq<User>, userIds: seq<Guid>, i: nat)
    requires |userIds| == |DefaultMembers| && DistinctGuids(userIds)
    requires |users| == i < |DefaultMembers|
    requires forall k :: 0 <= k < i ==> SeededAs(users[k], DefaultMembers[k], userIds[k])
    ensures !UserRepository.Exists(users, userIds[i])
    ensures !UserRepository.HasEmail(users, ToLowerInvariant(DefaultMembers[i].Email))
  {
    DefaultEmailsDistinct();
  }

  /** Adding the users of `users[..i]` one by one as members of a fresh chat:
      `AddMember` never throws, because the ids are distinct. */
  method AddAllMembers(chat: Chat, users: seq<User>, now: Instant)
    requires chat.Valid() && chat.Members == []
    requires UserRepository.DistinctIds(users)
    modifies chat`Members
    ensures chat.Valid()
    ensures UserIds(chat.Members) == IdsOf(users)
  {
    for i := 0 to |users|
      invariant chat.Valid()
      invariant UserIds(chat.Members) == IdsOf(users[..i])
    {
      var user := users[i];
      ghost var before := chat.Members;
      assert !HasUser(chat.Members, user.Id) by {
        forall j | 0 <= j < |chat.Members| ensures chat.Members[j].UserId != user.Id {
          assert UserIds(chat.Members)[j] == users[j].Id;
        }
      }
      var r := chat.AddMember(user, now);
      assert chat.Members == before + [chat.Members[|before|]];
      assert IdsOf(users[..i + 1]) == IdsOf(users[..i]) + [user.Id];
    }
    assert users[..|users|] == users;
  }

  /** Members listed in the order of a user list are all stored users. */
  lemma ListedMembersAreUsers(ms: seq<ChatMember>, users: seq<User>)
    requires UserIds(ms) == IdsOf(users)
    ensures forall k :: 0 <= k < |ms| ==> UserRepository.Exists(users, ms[k].UserId)
  {
    forall k | 0 <= k < |ms| ensures UserRepository.Exists(users, ms[k].UserId) {
      assert UserIds(ms)[k] == users[k].Id;
    }
  }

  /** The default chat `SeedAsync` builds: chat `chatId`, marked default, with
      the configured name and description, created by the first stored user,
      with every stored user as a member, once each and in table order. */
  ghost predicate IsDefaultChatFor(c: Chat, users: seq<User>, chatId: Guid, now: Instant)
    reads c
  {
    && c.Valid() && c.Id == chatId && c.IsDefault && c.CreatedAt == now
    && c.Name == DefaultChatName && c.Description == Some(DefaultChatDescription)
    && |users| > 0 && c.CreatedById == users[0].Id
    && UserIds(c.Members) == IdsOf(users)
  }

  /** Second phase of `SeedAsync`: when no stored chat is marked default and
      some user is stored, inserts the default chat; otherwise changes nothing. */
  method SeedDefaultChat(store: Store, chatId: Guid, now: Instant)
    requires store.Valid()
    requires !ChatRepository.Exists(store.Chats, chatId)
    modifies store`Chats
    ensures store.Valid()
    ensures ChatRepository.GetDefaultChat(old(store.Chats)).Some? || store.Users == [] ==>
              store.Chats == old(store.Chats)
    ensures ChatRepository.GetDefaultChat(old(store.Chats)).None? && store.Users != [] ==>
              && |store.Chats| == |old(store.Chats)| + 1
              && store.Chats[..|old(store.Chats)|] == old(store.Chats)
              && fresh(store.Chats[|old(store.Chats)|])
              && IsDefaultChatFor(store.Chats[|old(store.Chats)|], store.Users, chatId, now)
    ensures store.Users != [] ==> ChatRepository.GetDefaultChat(store.Chats).Some?
    ensures forall id :: ChatRepository.Exists(store.Chats, id) ==> ChatRepository.Exists(old(store.Chats), id) || id == chatId
  {
    if ChatRepository.GetDefaultChat(store.Chats).None? {
      if store.Users != [] {
        var first := store.Users[0];
        assert DefaultChatName[0] == 'F';
        var created := Chat.Create(chatId, DefaultChatName, Some(DefaultChatDescription), first, now, true);
        assert created.Success?;
        var chat := created.value;
        var users := store.Users;
        AddAllMembers(chat, users, now);
        ListedMembersAreUsers(chat.Members, users);
        var ok := store.AddChat(chat);
        assert ok;
        assert store.Chats[|old(store.Chats)|] == chat;
        ChatRepository.InsertedDefaultIsFound(old(store.Chats), chat);
        ChatRepository.ExistsAfterInsert(old(store.Chats), chat);
      }
    }
  }

  /** `SeedAsync()`: seeds the default users when none is stored, then the
      default chat when none is marked default. Afterwards some user is stored
      and some chat is marked default. */
  method Seed(store: Store, userIds: seq<Guid>, chatId: Guid, now: Instant)
    requires store.Valid()
    requires |userIds| == |DefaultMembers| && DistinctGuids(userIds)
    requires !ChatRepository.Exists(store.Chats, chatId)
    modifies store`Users, store`Chats
    ensures store.Valid()
    ensures old(store.Users) != [] ==> store.Users == old(store.Users)
    ensures old(store.Users) == [] ==>
              && |store.Users| == |DefaultMembers|
              && forall k :: 0 <= k < |DefaultMembers| ==> SeededAs(store.Users[k], DefaultMembers[k], userIds[k])
    ensures ChatRepository.GetDefaultChat(old(store.Chats)).Some? ==> store.Chats == old(store.Chats)
    ensures ChatRepository.GetDefaultChat(old(store.Chats)).None? ==>
              && |store.Chats| == |old(store.Chats)| + 1
              && store.Chats[..|old(store.Chats)|] == old(store.Chats)
              && fresh(store.Chats[|old(store.Chats)|])
              && IsDefaultChatFor(store.Chats[|old(store.Chats)|], store.Users, chatId, now)
    ensures store.Users != [] && ChatRepository.GetDefaultChat(store.Chats).Some?
    ensures forall id :: ChatRepository.Exists(store.Chats, id) ==> ChatRepository.Exists(old(store.Chats), id) || id == chatId
  {
    SeedUsers(store, userIds, now);
    SeedDefaultChat(store, chatId, now);
  }

  /** Seeding is idempotent: a second run inserts neither users nor chats. */
  method SeedTwice(store: Store, userIds: seq<Guid>, chatId: Guid, laterIds: seq<Guid>, laterChatId: Guid,
                   now: Instant, later: Instant)
    returns (usersAfterFirst: seq<User>, chatsAfterFirst: seq<Chat>)
    requires store.Valid()
    requires |userIds| == |DefaultMembers| && DistinctGuids(userIds)
    requires |laterIds| == |DefaultMembers| && DistinctGuids(laterIds)
    requires !ChatRepository.Exists(store.Chats, chatId) && !ChatRepository.Exists(store.Chats, laterChatId)
    requires chatId != laterChatId
    modifies store`Users, store`Chats
    ensures store.Valid()
    ensures store.Users == usersAfterFirst && store.Chats == chatsAfterFirst
  {
    Seed(store, userIds, chatId, now);
    usersAfterFirst, chatsAfterFirst := store.Users, store.Chats;
    Seed(store, laterIds, laterChatId, later);
  }
}
