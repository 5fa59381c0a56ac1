# FamilyChat core in Dafny

This project models the core of FamilyChat, a family chat application. The core has four parts.

- **Domain entities.** `User`, `Chat`, `ChatMember` and `Message` are classes with their guard checks: blank names, contents and emails are rejected, and so are null references, a duplicate member and the removal of a non-member. The email is lower-cased, and `Message.Edit` has edit semantics.
- **The store and its repositories.** The user, chat and message tables are modelled as sequences of entity objects. Each table keeps its key and foreign-key constraints and the unique email index. The repository queries are pure functions over these sequences:
  - filter by chat or sender;
  - a stable newest-first sort;
  - skip and take;
  - count;
  - lookup by id or by lower-cased email;
  - the membership test;
  - the default chat.
- **Application logic.** This covers:
  - the create-user and create-chat command handlers;
  - the user-details and chat-list queries;
  - the message controller's read actions and its ingestion rule. That rule checks content, then the chat, then the email claim. It then finds or creates the sender, stores one message and sends one broadcast to an outbox that stands for the SignalR hub.
  - the database seeder: the default users, then the default chat holding every user. Seeding is idempotent.
- **The web client's chat window.** This is the receive-merge rule, which keeps message ids distinct, and the send guard and its reset.

Ids (`Guid.NewGuid()`) and clock readings (`DateTime.UtcNow`) are parameters. Every fresh id is required to be unused in its table. A `Guid` is the 128-bit number its `ToString()` digits spell, and `GuidToString` is proved injective. .NET's `string.IsNullOrWhiteSpace` and JavaScript's `trim` are written out with their own white-space sets, which differ. Both are needed because the server and the client check blank content differently.

Modules, one file each:
- `Wrappers`: `Option`, `Result` and `Outcome`.
- `Text`: white space, `ToLowerInvariant` and `trim`.
- `Primitives`: `Guid`, `Instant`, the exceptions and `Guid.ToString()`.
- `UserEntity`, `MessageEntity`, `ChatEntity`: the entities.
- `UserRepository`, `ChatRepository`, `MessageRepository`: the queries.
- `Database`: the tables and their constraints.
- `CreateUserCommandHandler`, `CreateChatCommandHandler`, `GetUserDetailsQueryHandler`, `GetChatsQueryHandler`: the handlers.
- `MessagesController`, `DatabaseSeeder`, `ChatWindow`.

## Model

| member | source | states |
|---|---|---|
| Text.ToLowerInvariantProperties | FamilyChat.Domain/Entities/User.cs:29 | lower-casing keeps the length, leaves no upper-case letter, is the identity on lower-case text, and keeps a string blank or non-blank |
| Text.ToLowerInvariantIdempotent | FamilyChat.Infrastructure/Repositories/UserRepository.cs:20 | lower-casing a lower-cased string changes nothing |
| Text.JsTrimStart | FamilyChat.Web/src/components/ChatWindow.tsx:138 | the result is a suffix with no leading JavaScript white space, and every dropped character is white space |
| Text.JsTrimEnd | FamilyChat.Web/src/components/ChatWindow.tsx:138 | the result is a prefix with no trailing JavaScript white space, and every dropped character is white space |
| Text.JsTrimEmpty | FamilyChat.Web/src/components/ChatWindow.tsx:138 | `!s.trim()` holds exactly when every character of `s` is JavaScript white space |
| Text.WhiteSpaceSetsDiffer | FamilyChat.API/Controllers/MessagesController.cs:71-72 | the server's blank test and the client's `trim` disagree: U+0085 is blank only to the server, U+FEFF only to the client |
| Primitives.GuidToString | FamilyChat.Application/Chats/Queries/GetChats/GetChatsQueryHandler.cs:21 | `Guid.ToString()` is 36 characters with dashes at positions 8, 13, 18 and 23 |
| Primitives.GuidToStringInjective | FamilyChat.API/Controllers/MessagesController.cs:100 | distinct Guids print as distinct strings, so the group name and the row id identify the Guid |
| Primitives.HexDigitsInjective | FamilyChat.Application/Chats/Queries/GetChats/GetChatsQueryHandler.cs:21 | numbers below 16^k have distinct k-digit hexadecimal spellings |
| UserEntity.User.constructor | FamilyChat.Domain/Entities/User.cs:28-33 | after the checks pass: the user is valid, the email is lower-cased, the names are stored as given, and the user is active with no last login and no device token |
| UserEntity.User.Create | FamilyChat.Domain/Entities/User.cs:19-34 | throws ArgumentException for a blank email, then first name, then last name, naming that parameter; otherwise returns a fresh valid user with those fields |
| UserEntity.User.UpdateLastLogin | FamilyChat.Domain/Entities/User.cs:36-39 | sets `LastLoginAt` to the clock reading and changes no other field |
| UserEntity.User.UpdateDeviceToken | FamilyChat.Domain/Entities/User.cs:41-44 | stores the token exactly as given, null included, and changes no other field |
| UserEntity.User.Deactivate | FamilyChat.Domain/Entities/User.cs:46-49 | `IsActive` becomes false whatever it was, and nothing else changes |
| UserEntity.User.Activate | FamilyChat.Domain/Entities/User.cs:51-54 | `IsActive` becomes true whatever it was, and nothing else changes |
| MessageEntity.Message.constructor | FamilyChat.Domain/Entities/Message.cs:28-33 | a valid, unedited message with no edit time, storing the given chat, sender and content |
| MessageEntity.Message.Create | FamilyChat.Domain/Entities/Message.cs:19-34 | blank content throws ArgumentException("content"); otherwise a fresh valid unedited message with the given fields |
| MessageEntity.Message.Edit | FamilyChat.Domain/Entities/Message.cs:36-44 | blank new content throws and changes nothing; otherwise it sets the content, marks the message edited and sets the edit time. The invariant is kept, `IsEdited` never goes back to false, and id, chat, sender and creation time are constants |
| ChatEntity.ChatMember.constructor | FamilyChat.Domain/Entities/ChatMember.cs:23-28 | records the chat's id and the user's id, both references, the join time and the admin flag |
| ChatEntity.ChatMember.Create | FamilyChat.Domain/Entities/ChatMember.cs:16-29 | throws ArgumentNullException for a null chat, then for a null user; otherwise a fresh member with those ids and `IsAdmin` as passed (false by default) |
| ChatEntity.ChatMember.MakeAdmin | FamilyChat.Domain/Entities/ChatMember.cs:31-34 | `IsAdmin` becomes true whatever it was; ids and join time cannot change |
| ChatEntity.ChatMember.RemoveAdmin | FamilyChat.Domain/Entities/ChatMember.cs:36-39 | `IsAdmin` becomes false whatever it was; ids and join time cannot change |
| ChatEntity.FirstIndexOf | FamilyChat.Domain/Entities/Chat.cs:54 | finds no index exactly when the user is no member; otherwise finds the first index holding that user |
| ChatEntity.AppendKeepsDistinct | FamilyChat.Domain/Entities/Chat.cs:43-46 | appending a member for a new user keeps the user ids distinct; the member set afterwards is the old one plus that user |
| ChatEntity.WithoutUserRemovesOnlyThatUser | FamilyChat.Domain/Entities/Chat.cs:54-58 | removing a member drops exactly one entry, the one holding that user, and keeps the others in order: that user is gone, every other member and entry stays, and the ids stay distinct |
| ChatEntity.AddThenRemoveRestores | FamilyChat.Domain/Entities/Chat.cs:38-59 | adding a new user and then removing that user gives back the original member list |
| ChatEntity.Chat.constructor | FamilyChat.Domain/Entities/Chat.cs:27-35 | a valid chat recording the given fields and `CreatedById = createdBy.Id`, with no members and no messages |
| ChatEntity.Chat.Create | FamilyChat.Domain/Entities/Chat.cs:20-36 | a blank name throws ArgumentException, then a null creator throws ArgumentNullException; otherwise a fresh valid chat whose members are empty (the creator is not a member) |
| ChatEntity.Chat.AddMember | FamilyChat.Domain/Entities/Chat.cs:38-47 | a null user or an existing member throws and leaves the members unchanged; otherwise exactly one entry for the user is appended, earlier entries stay, and the distinct-ids invariant is kept |
| ChatEntity.Chat.RemoveMember | FamilyChat.Domain/Entities/Chat.cs:49-59 | a null user or a non-member throws and changes nothing; otherwise exactly that user's entry is removed, every other member stays, and the invariant is kept |
| UserRepository.FirstWithEmail | FamilyChat.Infrastructure/Repositories/UserRepository.cs:20 | finds nothing exactly when no stored email equals the argument; otherwise finds the first user whose stored email it is |
| UserRepository.GetByEmail | FamilyChat.Infrastructure/Repositories/UserRepository.cs:18-21 | returns a stored user whose email is the lower-cased argument, or none exactly when there is no such user |
| UserRepository.ExistsByEmail | FamilyChat.Infrastructure/Repositories/UserRepository.cs:28-31 | holds exactly when `GetByEmail` finds a user |
| UserRepository.GetByEmailIgnoresCase | FamilyChat.Infrastructure/Repositories/UserRepository.cs:18-31 | an email and its lower-cased form give the same lookup and the same existence answer |
| UserRepository.GetByEmailIsTheMatch | FamilyChat.Infrastructure/Data/ApplicationDbContext.cs:25 | with the unique email index, the stored user whose email matches is the one returned |
| UserRepository.GetById | FamilyChat.Application/Users/Queries/GetUserDetails/GetUserDetailsQueryHandler.cs:24 | returns a stored user with that id, or none exactly when no user has it |
| UserRepository.Exists | FamilyChat.Infrastructure/Repositories/UserRepository.cs:23-26 | holds exactly when some stored user has that id, which is when `GetById` finds one |
| UserRepository.GetByIdIsTheMatch | FamilyChat.Application/Chats/Commands/CreateChat/CreateChatCommandHandler.cs:28 | with distinct keys, looking up a stored user's id returns that user |
| UserRepository.ExistsAfterInsert | FamilyChat.Infrastructure/Data/DatabaseSeeder.cs:47 | after inserting a user, the stored ids are exactly the old ones plus the new id |
| ChatRepository.GetById | FamilyChat.Infrastructure/Repositories/ChatRepository.cs:44-50 | returns a stored chat with that id, or none exactly when no chat has it |
| ChatRepository.Exists | FamilyChat.Infrastructure/Repositories/ChatRepository.cs:39-42 | holds exactly when some stored chat has that id, which is when `GetById` finds one |
| ChatRepository.GetByIdIsTheMatch | FamilyChat.Infrastructure/Repositories/ChatRepository.cs:44-50 | with distinct keys, looking up a stored chat's id returns that chat |
| ChatRepository.IsUserMember | FamilyChat.Infrastructure/Repositories/ChatRepository.cs:33-37 | membership implies that the chat exists |
| ChatRepository.IsUserMemberOfTheChat | FamilyChat.Infrastructure/Repositories/ChatRepository.cs:33-37 | with distinct keys, membership holds exactly when the chat exists and has a member with that user id |
| ChatRepository.GetByUserId | FamilyChat.Infrastructure/Repositories/ChatRepository.cs:18-24 | returns exactly the stored chats that have the user as a member, each as often as stored |
| ChatRepository.GetByUserIdAppend | FamilyChat.Infrastructure/Repositories/ChatRepository.cs:18-24 | the result keeps table order: a chat appended to the table comes after the old result when it has the user |
| ChatRepository.GetDefaultChat | FamilyChat.Infrastructure/Repositories/ChatRepository.cs:26-31 | returns a stored chat marked default, or none exactly when no chat is marked default |
| ChatRepository.InsertedDefaultIsFound | FamilyChat.Infrastructure/Data/DatabaseSeeder.cs:51-71 | once a chat marked default is inserted, `GetDefaultChat` finds one |
| ChatRepository.ExistsAfterInsert | FamilyChat.Infrastructure/Data/DatabaseSeeder.cs:71 | after inserting a chat, the stored ids are exactly the old ones plus the new id |
| MessageRepository.Where | FamilyChat.Infrastructure/Repositories/MessageRepository.cs:22 | the filter keeps exactly the messages that pass, each as often as in the table |
| MessageRepository.WhereAppend | FamilyChat.Infrastructure/Repositories/MessageRepository.cs:22 | filtering a table with one more row gives the old result, followed by the new row when it passes |
| MessageRepository.CountAfterInsert | FamilyChat.Infrastructure/Repositories/MessageRepository.cs:38-41 | inserting a message raises its chat's count by one and leaves every other chat's count alone |
| MessageRepository.InsertNewestFirst | FamilyChat.Infrastructure/Repositories/MessageRepository.cs:23 | inserting into a newest-first list keeps it newest first and adds exactly that message |
| MessageRepository.SortNewestFirst | FamilyChat.Infrastructure/Repositories/MessageRepository.cs:23 | the result is newest first and a permutation of the input |
| MessageRepository.Skip | FamilyChat.Infrastructure/Repositories/MessageRepository.cs:24 | drops the first `n` elements, as SQLite's `OFFSET n` does: none for a negative `n`, all when `n` is at least the length; the result is a suffix |
| MessageRepository.Take | FamilyChat.Infrastructure/Repositories/MessageRepository.cs:25 | keeps the first `n` elements, as SQLite's `LIMIT n` does: all of them for a negative `n` or an `n` at least the length; the result is a prefix |
| MessageRepository.SliceNewestFirst | FamilyChat.Infrastructure/Repositories/MessageRepository.cs:24-25 | any slice of a newest-first list is newest first |
| MessageRepository.GetCountByChatId | FamilyChat.Infrastructure/Repositories/MessageRepository.cs:38-41 | the count is the size of the chat's filter, at most the table's size |
| MessageRepository.GetByChatId | FamilyChat.Infrastructure/Repositories/MessageRepository.cs:18-27 | every message returned is stored and belongs to the chat, none more often than in the chat, the page is newest first, and its length is the chat's count after `skip`, capped at `take` unless `take` is negative (then uncapped) |
| MessageRepository.PageIsRunOfChat | FamilyChat.Infrastructure/Repositories/MessageRepository.cs:18-27 | the page is the contiguous run starting at `skip` of a newest-first arrangement of exactly the chat's messages; equal `CreatedAt` values may be arranged either way |
| MessageRepository.SortedKeepsMembers | FamilyChat.Infrastructure/Repositories/MessageRepository.cs:23 | sorting keeps the length and the elements |
| MessageRepository.PageOfSorted | FamilyChat.Infrastructure/Repositories/MessageRepository.cs:24-25 | skip-then-take of a newest-first list is its contiguous run starting at the skip, newest first, with no element more often than in the list |
| MessageRepository.FullPageHoldsChat | FamilyChat.Infrastructure/Repositories/MessageRepository.cs:38-41 | with no skip and a `take` that is negative or at least the count, the page holds every message of the chat, each once |
| MessageRepository.GetByUserId | FamilyChat.Infrastructure/Repositories/MessageRepository.cs:29-36 | returns exactly the sender's messages, each as often as stored, newest first |
| MessageRepository.GetById | FamilyChat.Infrastructure/Repositories/MessageRepository.cs:48-54 | returns a stored message with that id, or none exactly when no message has it |
| MessageRepository.Exists | FamilyChat.Infrastructure/Repositories/MessageRepository.cs:43-46 | holds exactly when `GetById` finds a message |
| Database.Store.constructor | FamilyChat.Infrastructure/Data/ApplicationDbContext.cs:24-25 | an empty store satisfies every table constraint |
| Database.Store.AddUser | FamilyChat.Infrastructure/Data/ApplicationDbContext.cs:24-25 | the user is inserted exactly when its key and its stored email are both new; otherwise nothing changes. The constraints are kept |
| Database.Store.AddChat | FamilyChat.Infrastructure/Data/ApplicationDbContext.cs:34-68 | the chat is inserted exactly when its key is new, its creator is a stored user, its member rows satisfy the (ChatId, UserId) key, and every member is a stored user; otherwise nothing changes. The constraints are kept |
| Database.DuplicateMemberRowsRejected | FamilyChat.Infrastructure/Data/ApplicationDbContext.cs:59 | a chat with two member rows for one user cannot be inserted |
| Database.Store.AddMessage | FamilyChat.Infrastructure/Data/ApplicationDbContext.cs:45-54 | the message is inserted exactly when its key is new and its chat and sender are stored; otherwise nothing changes. The constraints are kept |
| Database.AppendUserKeepsValid | FamilyChat.Infrastructure/Data/ApplicationDbContext.cs:24-25 | appending a user with a new key and email keeps every table's constraints |
| Database.AppendChatKeepsValid | FamilyChat.Infrastructure/Data/ApplicationDbContext.cs:34-40 | appending an insertable chat keeps the chat and message constraints |
| Database.AppendMessageKeepsValid | FamilyChat.Infrastructure/Data/ApplicationDbContext.cs:45-54 | appending a message with a new key and resolving references keeps the message constraints |
| CreateUserCommandHandler.Handle | FamilyChat.Application/Users/Commands/CreateUser/CreateUserCommandHandler.cs:23-49 | an email already on record (after lower-casing) throws InvalidOperationException; then a blank field throws the constructor's exception; in either case no user is added. Otherwise exactly one user is appended: fresh, active, with the lower-cased email and the given names. The response carries its id, email and names, and `ExistsByEmail` of the command email then holds |
| CreateChatCommandHandler.Handle | FamilyChat.Application/Chats/Commands/CreateChat/CreateChatCommandHandler.cs:26-57 | an unknown creator throws InvalidOperationException even when the name is blank; then a blank name throws ArgumentException; in either case no chat is added. Otherwise exactly one chat is appended; its only member is the creator and it carries the command's fields. The response copies the stored chat's id, name, description, flag, creation time and creator id |
| GetUserDetailsQueryHandler.Handle | FamilyChat.Application/Users/Queries/GetUserDetails/GetUserDetailsQueryHandler.cs:22-43 | throws InvalidOperationException exactly when no user has the id; otherwise returns the profile of a stored user with that id, field for field; the store is only read |
| GetUserDetailsQueryHandler.HandleReturnsTheUser | FamilyChat.Application/Users/Queries/GetUserDetails/GetUserDetailsQueryHandler.cs:33-42 | with distinct keys, a stored user's id yields exactly that user's profile |
| GetChatsQueryHandler.Handle | FamilyChat.Application/Chats/Queries/GetChats/GetChatsQueryHandler.cs:15-26 | one row per stored chat, in order: the chat's id as its 36-character `ToString()`, the chat's name and creation time, and "todo" as the creator |
| GetChatsQueryHandler.RowIdsIdentifyChats | FamilyChat.Application/Chats/Queries/GetChats/GetChatsQueryHandler.cs:21 | two rows carry the same id string exactly when their chats have the same id |
| GetChatsQueryHandler.RowIdsDistinct | FamilyChat.Application/Chats/Queries/GetChats/GetChatsQueryHandler.cs:19-25 | with distinct chat keys, the rows' id strings are distinct |
| MessagesController.FindFirst | FamilyChat.API/Controllers/MessagesController.cs:78 | finds no value exactly when no claim has the type, compared ignoring case as `ClaimsIdentity.FindFirst` does; otherwise the value of the first claim of that type |
| MessagesController.FindFirstIgnoresCase | FamilyChat.API/Controllers/MessagesController.cs:78 | asking for a claim type and for its lower-cased form finds the same claim |
| MessagesController.Outbox.Send | FamilyChat.API/Controllers/MessagesController.cs:100 | the broadcast is appended to those sent so far |
| MessagesController.Controller.GetChatMessages | FamilyChat.API/Controllers/MessagesController.cs:50-57 | NotFound exactly when the chat is absent; otherwise the repository's page for (chat, skip, take) with defaults 0 and 50. Every message in it belongs to the chat, the page is newest first, and it holds at most `take` messages when `take` is not negative |
| MessagesController.Controller.GetMessage | FamilyChat.API/Controllers/MessagesController.cs:124-131 | the stored message with that id, or NotFound exactly when there is none |
| MessagesController.Controller.ResolveSender | FamilyChat.API/Controllers/MessagesController.cs:83-94 | a known email yields the stored user and adds nothing. Otherwise a user is built from the claims, with the fallbacks "Unknown" and "User", and appended; or the constructor's exception is returned and nothing is added |
| MessagesController.Controller.StoreMessage | FamilyChat.API/Controllers/MessagesController.cs:96-97 | exactly one new unedited message with the given id, chat, sender and content is appended |
| MessagesController.Controller.StoreAndNotify | FamilyChat.API/Controllers/MessagesController.cs:96-111 | one message is appended, and exactly one broadcast goes to the chat's group carrying that message's id, content and time and the sender's id and names |
| MessagesController.Controller.SendMessage | FamilyChat.API/Controllers/MessagesController.cs:69-114 | the checks run in order: blank content gives BadRequest, then a missing chat gives NotFound, then a missing email claim ("emails" first, then the standard email claim) gives Unauthorized. Each leaves users, messages and broadcasts unchanged, and so does an exception from the new user's constructor. Otherwise one message is stored, with the existing sender or a newly appended one, one broadcast is sent, and Created is returned |
| MessagesController.SentMessageIsListed | FamilyChat.API/Controllers/MessagesController.cs:113 | after a send the chat's count has grown by one, and a full first page (a `take` that is negative or at least the count) lists the new message |
| DatabaseSeeder.DefaultMembersAreValid | FamilyChat.Infrastructure/Data/StaticMembersConfiguration.cs:15-21 | every configured member passes the `User` constructor's checks |
| DatabaseSeeder.DefaultEmailsDistinct | FamilyChat.Infrastructure/Data/StaticMembersConfiguration.cs:15-21 | the configured emails stay pairwise distinct after lower-casing |
| DatabaseSeeder.SeedUsers | FamilyChat.Infrastructure/Data/DatabaseSeeder.cs:36-49 | with no users stored, inserts one user per configured member, in order, with those fields, active; with any user stored, inserts none |
| DatabaseSeeder.NextSeedIsNew | FamilyChat.Infrastructure/Data/DatabaseSeeder.cs:39-47 | while seeding, the next member's key and lower-cased email are still free |
| DatabaseSeeder.AddAllMembers | FamilyChat.Infrastructure/Data/DatabaseSeeder.cs:65-69 | adding every user of a list to a fresh chat never throws, and the member ids are the list's ids in order |
| DatabaseSeeder.ListedMembersAreUsers | FamilyChat.Infrastructure/Data/DatabaseSeeder.cs:65-71 | members listed in the order of the stored users are all stored users |
| DatabaseSeeder.SeedDefaultChat | FamilyChat.Infrastructure/Data/DatabaseSeeder.cs:51-73 | when no chat is marked default and some user is stored, exactly one chat is appended: marked default, with the configured name and description, created by the first user, and with every user as a member once, in order. Otherwise nothing changes; afterwards a default chat exists whenever a user does |
| DatabaseSeeder.Seed | FamilyChat.Infrastructure/Data/DatabaseSeeder.cs:30-83 | both phases in order; afterwards some user is stored and some chat is marked default |
| DatabaseSeeder.SeedTwice | FamilyChat.Infrastructure/Data/DatabaseSeeder.cs:36-51 | a second run of seeding adds neither users nor chats |
| ChatWindow.MergeReceived | FamilyChat.Web/src/components/ChatWindow.tsx:78-85 | a message whose id is already listed leaves the list unchanged; otherwise it is appended at the end and earlier entries keep their order |
| ChatWindow.MergeKeepsDistinctIds | FamilyChat.Web/src/components/ChatWindow.tsx:78-85 | merging keeps the ids distinct |
| ChatWindow.MergeIdempotent | FamilyChat.Web/src/components/ChatWindow.tsx:78-85 | receiving the same message twice has the effect of receiving it once |
| ChatWindow.MergeIds | FamilyChat.Web/src/components/ChatWindow.tsx:78-85 | after a merge, the listed ids are the old ones plus the message's id |
| ChatWindow.MissingChatIdIgnored | FamilyChat.Web/src/components/ChatWindow.tsx:77 | a message without a chat id is never accepted |
| ChatWindow.ChatWindowState.OnReceiveMessage | FamilyChat.Web/src/components/ChatWindow.tsx:75-88 | a message for this chat from another sender is merged, and any other message is ignored; distinct ids stay distinct |
| ChatWindow.ChatWindowState.SendMessage | FamilyChat.Web/src/components/ChatWindow.tsx:137-164 | does nothing without an account, without a chat id, or when the draft trims to nothing. Otherwise it posts the untrimmed draft, clears the draft only after an OK response, and sets the error text otherwise |

## Left out

- I/O, `async`/`await`, logging and HTTP plumbing: each operation is modelled as one atomic step. The races between concurrent requests (two first messages from the same new email) are not modelled.
- The SignalR hub is an `Outbox` that records the broadcasts sent. Group membership and delivery (FamilyChat.API/Hubs/ChatHub.cs) are not part of this model.
- The base repository, `AddAsync` and `GetAllAsync`, is not part of this model. `AddAsync` is modelled as an insert that checks the constraints, and later reads see the row. `Database.MigrateAsync` and `SaveChangesAsync` are no-ops.
- EF Core `Include` navigation loading is left out: the model's entities always carry their references.
- The server and client payload shapes do not match. The server's broadcast has no top-level `chatId` or `senderId`, and the client filters on them (`ChatWindow.MissingChatIdIgnored` states the client side). No end-to-end delivery property is stated.
- Everything else in ChatWindow.tsx (token acquisition, connection set-up, scrolling, history loading) and the rest of the web client are left out.
- `Guid.NewGuid()` and `DateTime.UtcNow` are parameters, and every fresh id is required to be unused. One `now` stands for all the clock readings of one operation: a chat's `CreatedAt` and its members' `JoinedAt`, or every seeded user's `CreatedAt`. These are separate readings in the source, and no contract relies on them being equal. Guid byte order is not modelled. `GuidToString` spells the number that the printed digits denote.
- The `Guid == null` checks in FamilyChat.Domain/Entities/Message.cs:23-26 can never fire and are left out.
- The password: `User`'s constructor takes a password hash and does not store it, so the model takes it and drops it. FamilyChat.Infrastructure/Data/ApplicationDbContext.cs:29 maps a `PasswordHash` property that `User` does not declare. The model follows the entity.
- Column lengths (ApplicationDbContext.cs:26-28, 35-36) are not enforced.
- Cascade and restrict delete behaviour is not modelled, because no operation of the core deletes a row.
- Database.Store.Valid: the member rows (the (ChatId, UserId) key, and that every member is a stored user) are checked when a chat is inserted (`AddChat`), not kept as a lasting table invariant. After insertion a chat's members change only through its own methods, which keep the key as part of `Chat.Valid`.
- Database.Store.Valid: the entities' own invariants (`User.Valid`, `Chat.Valid`, `Message.Valid`) are not part of the store's invariant. Each method that needs one states it.
- Text.ToLowerInvariant: only ASCII and Latin-1 upper-case letters are mapped. Other scripts' case mappings are not modelled. The same folding stands for `OrdinalIgnoreCase` when claim types are compared.
- MessageRepository.SortNewestFirst is a stable sort. The database does not promise an order among messages with equal `CreatedAt`.
- Null strings in commands and claims are not modelled, except the message body, which is an `Option` and treated as blank when null. A null chat description is `None`.
- `ChatMember`'s EF Core constructor and the private parameterless constructors are left out.
- `Chat.Messages`: the navigation is declared and starts empty, but no operation fills it; a chat's messages are read from the message table, as the repository queries do.
- Program.cs wiring, controllers other than MessagesController, ChatHub.cs and IEncryptionService.cs are not part of this model.
- The SQLite database compares strings byte by byte, so the unique email index works on the stored strings exactly, and so does `AddUser`.
