/** FamilyChat.API/Controllers/MessagesController.cs: reading a chat's messages
    and the message-ingestion rule, over the store and an outbox standing for
    the SignalR hub. */
module MessagesController {
  import opened Wrappers
  import opened Text
  import opened Primitives
  import opened UserEntity
  import opened MessageEntity
  import UserRepository
  import ChatRepository
  import MessageRepository
  import opened Database

  /** A claim of the signed-in principal. */
  datatype Claim = Claim(Type: string, Value: string)

  const EmailsClaim: string := "emails"
  const ClaimTypesEmail: string := "http://schemas.xmlsoap.org/ws/2005/05/identity/claims/emailaddress"
  const GivenNameClaim: string := "given_name"
  const ClaimTypesGivenName: string := "http://schemas.xmlsoap.org/ws/2005/05/identity/claims/givenname"
  const FamilyNameClaim: string := "family_name"
  const ClaimTypesSurname: string := "http://schemas.xmlsoap.org/ws/2005/05/identity/claims/surname"

  /** Claim types compare as `StringComparison.OrdinalIgnoreCase` does: equal
      once both are case-folded. */
  predicate SameClaimType(a: string, b: string) {
    ToLowerInvariant(a) == ToLowerInvariant(b)
  }

  /** `User.FindFirst(type)?.Value`: the value of the first claim whose type equals
      `claimType` ignoring case, or null. */
  function FindFirst(claims: seq<Claim>, claimType: string): (r: Option<string>)
    ensures r.None? <==> forall i :: 0 <= i < |claims| ==> !SameClaimType(claims[i].Type, claimType)
    ensures r.Some? ==> (exists i :: 0 <= i < |claims| && SameClaimType(claims[i].Type, claimType)
                          && claims[i].Value == r.value
                          && forall j :: 0 <= j < i ==> !SameClaimType(claims[j].Type, claimType))
  {
    if claims == [] then None
    else if SameClaimType(claims[0].Type, claimType) then Some(claims[0].Value)
    else
      var r := FindFirst(claims[1..], claimType);
      r
  }

  /** The lookup ignores the case of the claim type asked for: "Emails" finds what
      "emails" finds. */
  lemma {:induction false} FindFirstIgnoresCase(claims: seq<Claim>, claimType: string)
    ensures FindFirst(claims, claimType) == FindFirst(claims, ToLowerInvariant(claimType))
  {
    ToLowerInvariantIdempotent(claimType);
    if claims != [] {
      FindFirstIgnoresCase(claims[1..], claimType);
    }
  }

  /** The email claim: "emails" when present (even if empty), else `ClaimTypes.Email`. */
  function EmailOf(claims: seq<Claim>): Option<string> {
    FindFirst(claims, EmailsClaim).OrElse(FindFirst(claims, ClaimTypesEmail))
  }

  /** The first name for a user created from claims, "Unknown" when neither claim is present. */
  function GivenNameOf(claims: seq<Claim>): string {
    FindFirst(claims, GivenNameClaim).OrElse(FindFirst(claims, ClaimTypesGivenName)).GetOr("Unknown")
  }

  /** The last name for a user created from claims, "User" when neither claim is present. */
  function FamilyNameOf(claims: seq<Claim>): string {
    FindFirst(claims, FamilyNameClaim).OrElse(FindFirst(claims, ClaimTypesSurname)).GetOr("User")
  }

  /** `string.IsNullOrEmpty`. */
  predicate IsNullOrEmpty(s: Option<string>) {
    s.None? || s.value == ""
  }

  /** The anonymous sender object inside the broadcast payload. */
  datatype SenderView = SenderView(Id: Guid, FirstName: string, LastName: string)
  datatype MessagePayload = MessagePayload(Id: Guid, Content: string, CreatedAt: Instant, Sender: SenderView)

  /** `Clients.Group(group).SendAsync(method, payload)`. */
  datatype Broadcast = Broadcast(Group: string, Method: string, Payload: MessagePayload)

  /** The hub context: the broadcasts sent so far, oldest first. */
  class Outbox {
    var Sent: seq<Broadcast>

    constructor ()
      ensures Sent == []
    {
      Sent := [];
    }

    method Send(b: Broadcast)
      modifies this`Sent
      ensures Sent == old(Sent) + [b]
    {
      Sent := Sent + [b];
    }
  }

  /** What an action answers. */
  datatype ActionResult =
    | OkPage(messages: seq<Message>)
    | OkMessage(message: Message)
    | CreatedMessage(message: Message)
    | BadRequest(text: string)
    | NotFound(text: string)
    | Unauthorized(text: string)
    | Faulted(exception: Exception)   // an exception the action does not catch

  const EmptyContentText: string := "Message content cannot be empty"
  const NoEmailText: string := "User email not found in claims"
  const ReceiveMessageMethod: string := "ReceiveMessage"

  function ChatNotFoundText(chatId: Guid): string {
    "Chat with ID " + GuidToString(chatId) + " not found"
  }

  function MessageNotFoundText(id: Guid): string {
    "Message with ID " + GuidToString(id) + " not found"
  }

  /** The notification for a stored message from `sender`, to the chat's group. */
  function Notification(m: Message, sender: User): Broadcast
    reads m
  {
    Broadcast(GuidToString(m.ChatId), ReceiveMessageMethod,
              MessagePayload(m.Id, m.Content, m.CreatedAt, SenderView(sender.Id, sender.FirstName, sender.LastName)))
  }

  /** Content the action rejects: a null or blank body. */
  predicate BlankContent(content: Option<string>) {
    content.None? || IsNullOrWhiteSpace(content.value)
  }

  class Controller {
    const Store: Store
    const Hub: Outbox

    constructor (store: Store, hub: Outbox)
      ensures Store == store && Hub == hub
    {
      Store := store;
      Hub := hub;
    }

    /** `GetChatMessages(chatId, skip = 0, take = 50)`: NotFound when the chat is
        absent; otherwise the repository's page, whose every message belongs to
        the chat, newest first, at most `take` of them when `take` is not
        negative (a negative `take` sets no limit). */
    function GetChatMessages(chatId: Guid, skip: int := 0, take: int := 50): (r: ActionResult)
      reads Store
      ensures !ChatRepository.Exists(Store.Chats, chatId) <==> r == NotFound(ChatNotFoundText(chatId))
      ensures r.OkPage? <==> ChatRepository.Exists(Store.Chats, chatId)
      ensures r.OkPage? ==> && r.messages == MessageRepository.GetByChatId(Store.Messages, chatId, skip, take)
                            && (forall m :: m in r.messages ==> m in Store.Messages && m.ChatId == chatId)
                            && MessageRepository.NewestFirst(r.messages)
                            && (take >= 0 ==> |r.messages| <= take)
    {
      if !ChatRepository.Exists(Store.Chats, chatId) then NotFound(ChatNotFoundText(chatId))
      else OkPage(MessageRepository.GetByChatId(Store.Messages, chatId, skip, take))
    }

    /** `GetMessage(id)`: the stored message with that id, or NotFound. */
    function GetMessage(id: Guid): (r: ActionResult)
      reads Store
      ensures r.OkMessage? <==> MessageRepository.Exists(Store.Messages, id)
      ensures !r.OkMessage? ==> r == NotFound(MessageNotFoundText(id))
      ensures r.OkMessage? ==> r.message in Store.Messages && r.message.Id == id
    {
      match MessageRepository.GetById(Store.Messages, id)
      case None => NotFound(MessageNotFoundText(id))
      case Some(m) => OkMessage(m)
    }

    /** The sender of a message with claimed `email`: the stored user with that
        email, or else a new user built from the claims and inserted; the `User`
        constructor's exception when it rejects them. */
    method ResolveSender(claims: seq<Claim>, email: string, newUserId: Guid, now: Instant)
      returns (r: Result<User, Exception>)
      requires Store.Valid()
      requires !UserRepository.Exists(Store.Users, newUserId)
      modifies Store`Users
      ensures Store.Valid()
      ensures r.Success? ==> UserRepository.Exists(Store.Users, r.value.Id)
      ensures UserRepository.GetByEmail(old(Store.Users), email).Some? ==>
                r == Success(UserRepository.GetByEmail(old(Store.Users), email).value)
      ensures UserRepository.GetByEmail(old(Store.Users), email).None? ==>
                var err := UserArgumentError(email, GivenNameOf(claims), FamilyNameOf(claims));
                if err.Some? then r == Failure(err.value)
                else
                  && r.Success? && fresh(r.value) && Store.Users == old(Store.Users) + [r.value]
                  && r.value.Id == newUserId && r.value.Email == ToLowerInvariant(email)
                  && r.value.FirstName == GivenNameOf(claims) && r.value.LastName == FamilyNameOf(claims)
      ensures !(r.Success? && UserRepository.GetByEmail(old(Store.Users), email).None?) ==>
                Store.Users == old(Store.Users)
    {
      var known := UserRepository.GetByEmail(Store.Users, email);
      if known.Some? {
        assert known.value in Store.Users;
        return Success(known.value);
      }
      var created := User.Create(newUserId, email, GivenNameOf(claims), FamilyNameOf(claims), None, now);
      if created.Failure? {
        return Failure(created.error);
      }
      var user := created.value;
      var added := Store.AddUser(user);
      assert added;
      assert Store.Users[|old(Store.Users)|] == user;
      return Success(user);
    }

    /** Builds a new message from `sender` and stores it. */
    method StoreMessage(sender: User, chatId: Guid, content: string, newMessageId: Guid, now: Instant)
      returns (m: Message)
      requires Store.Valid() && !IsNullOrWhiteSpace(content)
      requires UserRepository.Exists(Store.Users, sender.Id) && ChatRepository.Exists(Store.Chats, chatId)
      requires !MessageRepository.Exists(Store.Messages, newMessageId)
      modifies Store`Messages
      ensures Store.Valid()
      ensures Store.Messages == old(Store.Messages) + [m]
      ensures fresh(m) && m.Id == newMessageId && m.ChatId == chatId && m.SenderId == sender.Id
      ensures m.Content == content && m.CreatedAt == now && !m.IsEdited
    {
      m := new Message(newMessageId, chatId, sender.Id, content, now);
      var stored := Store.AddMessage(m);
      assert stored;
    }

    /** Stores a new message from `sender` and notifies the chat's group. */
    method StoreAndNotify(sender: User, chatId: Guid, content: string, newMessageId: Guid, now: Instant)
      returns (m: Message)
      requires Store.Valid() && !IsNullOrWhiteSpace(content)
      requires UserRepository.Exists(Store.Users, sender.Id) && ChatRepository.Exists(Store.Chats, chatId)
      requires !MessageRepository.Exists(Store.Messages, newMessageId)
      modifies Store`Messages, Hub`Sent
      ensures Store.Valid()
      ensures Store.Messages == old(Store.Messages) + [m]
      ensures fresh(m) && m.Id == newMessageId && m.ChatId == chatId && m.SenderId == sender.Id
      ensures m.Content == content && m.CreatedAt == now && !m.IsEdited
      ensures Hub.Sent == old(Hub.Sent) + [Notification(m, sender)]
    {
      m := StoreMessage(sender, chatId, content, newMessageId, now);
      var note := Notification(m, sender);
      Hub.Send(note);
    }

    /** `SendMessage(chatId, content)` for a principal with `claims`. The checks
        run in order: blank content, absent chat, missing email claim; each
        answers without touching the store or the hub. Then the sender is the
        stored user with that email or, when there is none, a new user built
        from the claims (whose constructor may throw, leaving everything as it
        was). Exactly one message is stored and one notification goes to the
        chat's group. `newUserId`, `newMessageId` and `now` stand for fresh
        Guids and the clock reading. */
    method SendMessage(claims: seq<Claim>, chatId: Guid, content: Option<string>,
                       newUserId: Guid, newMessageId: Guid, now: Instant)
      returns (r: ActionResult)
      requires Store.Valid()
      requires !UserRepository.Exists(Store.Users, newUserId)
      requires !MessageRepository.Exists(Store.Messages, newMessageId)
      modifies Store`Users, Store`Messages, Hub`Sent
      ensures Store.Valid()
      ensures BlankContent(content) ==> r == BadRequest(EmptyContentText)
      ensures !BlankContent(content) && !ChatRepository.Exists(Store.Chats, chatId) ==>
                r == NotFound(ChatNotFoundText(chatId))
      ensures !BlankContent(content) && ChatRepository.Exists(Store.Chats, chatId) && IsNullOrEmpty(EmailOf(claims)) ==>
                r == Unauthorized(NoEmailText)
      ensures !r.CreatedMessage? ==>
                && Store.Users == old(Store.Users) && Store.Messages == old(Store.Messages)
                && Hub.Sent == old(Hub.Sent)
      ensures r.CreatedMessage? ==>
                && !BlankContent(content) && ChatRepository.Exists(Store.Chats, chatId)
                && !IsNullOrEmpty(EmailOf(claims))
      ensures r.CreatedMessage? ==>
                && Store.Messages == old(Store.Messages) + [r.message]
                && fresh(r.message) && r.message.Id == newMessageId && r.message.ChatId == chatId
                && r.message.Content == content.value && r.message.CreatedAt == now && !r.message.IsEdited
      // the sender is the stored user with the claimed email, created if need be
      ensures r.CreatedMessage? ==>
                var email := EmailOf(claims).value;
                var known := UserRepository.GetByEmail(old(Store.Users), email);
                if known.Some? then
                  && Store.Users == old(Store.Users)
                  && r.message.SenderId == known.value.Id
                  && Hub.Sent == old(Hub.Sent) + [Notification(r.message, known.value)]
                else
                  && |Store.Users| == |old(Store.Users)| + 1
                  && Store.Users[..|old(Store.Users)|] == old(Store.Users)
                  && var u := Store.Users[|old(Store.Users)|];
                     && fresh(u) && u.Id == newUserId && u.Email == ToLowerInvariant(email)
                     && u.FirstName == GivenNameOf(claims) && u.LastName == FamilyNameOf(claims)
                     && r.message.SenderId == u.Id
                     && Hub.Sent == old(Hub.Sent) + [Notification(r.message, u)]
      // a new user whose claims the constructor rejects: the exception escapes
      ensures && !BlankContent(content) && ChatRepository.Exists(Store.Chats, chatId)
              && !IsNullOrEmpty(EmailOf(claims))
              && UserRepository.GetByEmail(old(Store.Users), EmailOf(claims).value).None?
              && UserArgumentError(EmailOf(claims).value, GivenNameOf(claims), FamilyNameOf(claims)).Some? ==>
                r == Faulted(UserArgumentError(EmailOf(claims).value, GivenNameOf(claims), FamilyNameOf(claims)).value)
      ensures && !BlankContent(content) && ChatRepository.Exists(Store.Chats, chatId)
              && !IsNullOrEmpty(EmailOf(claims))
              && (|| UserRepository.GetByEmail(old(Store.Users), EmailOf(claims).value).Some?
                  || UserArgumentError(EmailOf(claims).value, GivenNameOf(claims), FamilyNameOf(claims)).None?) ==>
                r.CreatedMessage?
    {
      if BlankContent(content) {
        return BadRequest(EmptyContentText);
      }
      if !ChatRepository.Exists(Store.Chats, chatId) {
        return NotFound(ChatNotFoundText(chatId));
      }
      var email := EmailOf(claims);
      if IsNullOrEmpty(email) {
        return Unauthorized(NoEmailText);
      }
      var resolved := ResolveSender(claims, email.value, newUserId, now);
      if resolved.Failure? {
        return Faulted(resolved.error);
      }
      var m := StoreAndNotify(resolved.value, chatId, content.value, newMessageId, now);
      return CreatedMessage(m);
    }
  }

  /** After a successful send the chat's message count has grown by one and a
      full first page lists the new message. */
  lemma SentMessageIsListed(ms: seq<Message>, m: Message, take: int)
    requires take < 0 || take >= MessageRepository.GetCountByChatId(ms + [m], m.ChatId)
    ensures MessageRepository.GetCountByChatId(ms + [m], m.ChatId) == MessageRepository.GetCountByChatId(ms, m.ChatId) + 1
    ensures m in MessageRepository.GetByChatId(ms + [m], m.ChatId, 0, take)
  {
    MessageRepository.CountAfterInsert(ms, m, m.ChatId);
    MessageRepository.FullPageHoldsChat(ms + [m], m.ChatId, take);
  }
}
