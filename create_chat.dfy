/** FamilyChat.Application/Chats/Commands/CreateChat: creating a chat with its
    creator as the only member. */
module CreateChatCommandHandler {
  import opened Wrappers
  import opened Text
  import opened Primitives
  import opened UserEntity
  import opened ChatEntity
  import UserRepository
  import ChatRepository
  import opened Database

  datatype CreateChatCommand = CreateChatCommand(Name: string, Description: Option<string>, IsDefault: bool, CreatedById: Guid)

  datatype CreateChatResponse = CreateChatResponse(
    Id: Guid, Name: string, Description: Option<string>, IsDefault: bool,
    CreatedAt: Instant, CreatedById: Guid)

  /** `Handle(command)`: looks the creator up first and throws
      InvalidOperationException when no user has that id (whatever the name);
      then lets the `Chat` constructor reject a blank name; otherwise the new
      chat gets the creator as its one member and is inserted. `newId` and
      `now` stand for the fresh Guid and the clock reading. */
  method Handle(store: Store, command: CreateChatCommand, newId: Guid, now: Instant)
    returns (r: Result<CreateChatResponse, Exception>)
    requires store.Valid()
    requires !ChatRepository.Exists(store.Chats, newId)
    modifies store`Chats
    ensures store.Valid()
    ensures !UserRepository.Exists(store.Users, command.CreatedById) ==>
              r == Failure(InvalidOperationException(UserNotFound(command.CreatedById)))
    ensures UserRepository.Exists(store.Users, command.CreatedById) && IsNullOrWhiteSpace(command.Name) ==>
              r == Failure(ArgumentException("name"))
    ensures r.Failure? ==> store.Chats == old(store.Chats)
    ensures r.Success? ==> UserRepository.Exists(store.Users, command.CreatedById) && !IsNullOrWhiteSpace(command.Name)
    ensures r.Success? ==>
              && |store.Chats| == |old(store.Chats)| + 1
              && store.Chats[..|old(store.Chats)|] == old(store.Chats)
              && var c := store.Chats[|old(store.Chats)|];
                 && fresh(c) && c.Id == newId && c.CreatedAt == now
                 && c.Name == command.Name && c.Description == command.Description
                 && c.IsDefault == command.IsDefault && c.CreatedById == command.CreatedById
                 && UserIds(c.Members) == [command.CreatedById]
                 && r.value == CreateChatResponse(c.Id, c.Name, c.Description, c.IsDefault, c.CreatedAt, c.CreatedById)
  {
    var creator := UserRepository.GetById(store.Users, command.CreatedById);
    if creator.None? {
      return Failure(InvalidOperationException(UserNotFound(command.CreatedById)));
    }
    var created := Chat.Create(newId, command.Name, command.Description, creator.value, now, command.IsDefault);
    if created.Failure? {
      return Failure(created.error);
    }
    var chat := created.value;
    var added := chat.AddMember(creator.value, now);
    assert added == Pass;
    assert UserIds(chat.Members) == [command.CreatedById];
    var ok := store.AddChat(chat);
    assert ok;
    assert store.Chats[|old(store.Chats)|] == chat;
    return Success(CreateChatResponse(chat.Id, chat.Name, chat.Description, chat.IsDefault, chat.CreatedAt, chat.CreatedById));
  }
}
