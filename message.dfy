/** FamilyChat.Domain/Entities/Message.cs */
module MessageEntity {
  import opened Wrappers
  import opened Text
  import opened Primitives

  class Message {
    const Id: Guid
    var Content: string
    const CreatedAt: Instant
    var EditedAt: Option<Instant>
    var IsEdited: bool
    const ChatId: Guid
    const SenderId: Guid

    /** Content is never blank, and a message carries an edit time exactly when
        it has been edited. */
    ghost predicate Valid()
      reads this
    {
      !IsNullOrWhiteSpace(Content) && (IsEdited <==> EditedAt.Some?)
    }

    /** The constructor once its content check has passed; `Create` performs it. */
    constructor (id: Guid, chatId: Guid, senderId: Guid, content: string, now: Instant)
      requires !IsNullOrWhiteSpace(content)
      ensures Valid()
      ensures Id == id && ChatId == chatId && SenderId == senderId && Content == content
      ensures CreatedAt == now && !IsEdited && EditedAt == None
    {
      Id := id;
      Content := content;
      CreatedAt := now;
      IsEdited := false;
      EditedAt := None;
      ChatId := chatId;
      SenderId := senderId;
    }

    /** `new Message(chatId, senderId, content)`: throws ArgumentException for
        blank content; otherwise a fresh, unedited message. */
    static method Create(id: Guid, chatId: Guid, senderId: Guid, content: string, now: Instant)
      returns (r: Result<Message, Exception>)
      ensures IsNullOrWhiteSpace(content) ==> r == Failure(ArgumentException("content"))
      ensures !IsNullOrWhiteSpace(content) ==>
                && r.Success? && fresh(r.value) && r.value.Valid()
                && r.value.Id == id && r.value.ChatId == chatId
                && r.value.SenderId == senderId && r.value.Content == content
                && r.value.CreatedAt == now && !r.value.IsEdited && r.value.EditedAt == None
    {
      if IsNullOrWhiteSpace(content) {
        return Failure(ArgumentException("content"));
      }
      var m := new Message(id, chatId, senderId, content, now);
      return Success(m);
    }

    /** Blank new content throws and changes nothing; otherwise the content is
        replaced and the message is marked edited at `now`. Id, ChatId, SenderId
        and CreatedAt are constants, and IsEdited never goes back to false. */
    method Edit(newContent: string, now: Instant) returns (r: Outcome<Exception>)
      requires Valid()
      modifies this`Content, this`EditedAt, this`IsEdited
      ensures Valid()
      ensures old(IsEdited) ==> IsEdited
      ensures IsNullOrWhiteSpace(newContent) ==>
                r == Fail(ArgumentException("newContent")) && unchanged(this)
      ensures !IsNullOrWhiteSpace(newContent) ==>
                r == Pass && Content == newContent && IsEdited && EditedAt == Some(now)
    {
      if IsNullOrWhiteSpace(newContent) {
        return Fail(ArgumentException("newContent"));
      }
      Content := newContent;
      EditedAt := Some(now);
      IsEdited := true;
      return Pass;
    }
  }
}
