/** FamilyChat.Web/src/components/ChatWindow.tsx: how the chat window merges a
    message pushed by the hub into its list, and its send guard and reset. */
module ChatWindow {
  import opened Wrappers
  import opened Text

  /** A message as the client receives it; a property the JSON object lacks is
      `undefined`, modelled as None. */
  datatype ClientMessage = ClientMessage(
    id: string, content: string, createdAt: string,
    chatId: Option<string>, senderId: Option<string>)

  /** `prevMessages.some(m => m.id === message.id)` */
  predicate HasId(ms: seq<ClientMessage>, id: string) {
    exists i :: 0 <= i < |ms| && ms[i].id == id
  }

  predicate DistinctIds(ms: seq<ClientMessage>) {
    forall i, j :: 0 <= i < j < |ms| ==> ms[i].id != ms[j].id
  }

  /** The `setMessages` updater: the list unchanged when a message with that id
      is already in it, otherwise the list with the message appended at the end. */
  function MergeReceived(prev: seq<ClientMessage>, message: ClientMessage): (r: seq<ClientMessage>)
    ensures HasId(prev, message.id) ==> r == prev
    ensures !HasId(prev, message.id) ==> |r| == |prev| + 1 && r[..|prev|] == prev && r[|prev|] == message
    ensures HasId(r, message.id)
  {
    if HasId(prev, message.id) then prev
    else
      var r := prev + [message];
      assert r[|prev|] == message && r[..|prev|] == prev;
      r
  }

  /** Merging keeps the ids distinct. */
  lemma MergeKeepsDistinctIds(prev: seq<ClientMessage>, message: ClientMessage)
    requires DistinctIds(prev)
    ensures DistinctIds(MergeReceived(prev, message))
  {
    var r := MergeReceived(prev, message);
    if !HasId(prev, message.id) {
      forall i, j | 0 <= i < j < |r| ensures r[i].id != r[j].id {
        if j == |prev| {
          assert r[i] == prev[i];
        } else {
          assert r[i] == prev[i] && r[j] == prev[j];
        }
      }
    }
  }

  /** Receiving the same message twice has the effect of receiving it once. */
  lemma MergeIdempotent(prev: seq<ClientMessage>, message: ClientMessage)
    ensures MergeReceived(MergeReceived(prev, message), message) == MergeReceived(prev, message)
  {
  }

  /** The ids after a merge are the ids before plus the message's id. */
  lemma MergeIds(prev: seq<ClientMessage>, message: ClientMessage)
    ensures forall id :: HasId(MergeReceived(prev, message), id) <==> HasId(prev, id) || id == message.id
  {
    var r := MergeReceived(prev, message);
    if !HasId(prev, message.id) {
      forall id | HasId(r, id) ensures HasId(prev, id) || id == message.id {
        var i :| 0 <= i < |r| && r[i].id == id;
        if i < |prev| { assert prev[i].id == id; }
      }
      forall id | HasId(prev, id) ensures HasId(r, id) {
        var i :| 0 <= i < |prev| && prev[i].id == id;
        assert r[i].id == id;
      }
    }
  }

  /** The hub handler's filter: the message is for this chat and its sender is
      not the signed-in account (`===`/`!==`, under which two `undefined`s are equal). */
  predicate Accepts(message: ClientMessage, chatId: string, account: Option<string>) {
    message.chatId == Some(chatId) && message.senderId != account
  }

  /** A message without a chatId is never accepted, whatever the window's chat. */
  lemma MissingChatIdIgnored(message: ClientMessage, chatId: string, account: Option<string>)
    requires message.chatId.None?
    ensures !Accepts(message, chatId, account)
  {
  }

  /** What answering the POST came to: an OK response, or a thrown error (a
      failed token request, a failed fetch or a non-OK status). */
  datatype PostOutcome = PostOk | PostFailed

  const SendFailedText: string := "Failed to send message. Please try again."

  /** The window's state. `Account` is the signed-in account's local id, None
      when there is no account; `ChatId` is the `chatId` prop. */
  class ChatWindowState {
    const ChatId: string
    const Account: Option<string>
    var Messages: seq<ClientMessage>
    var NewMessage: string
    var Error: Option<string>

    constructor (chatId: string, account: Option<string>)
      ensures ChatId == chatId && Account == account
      ensures Messages == [] && NewMessage == "" && Error == None
    {
      ChatId := chatId;
      Account := account;
      Messages := [];
      NewMessage := "";
      Error := None;
    }

    /** The "ReceiveMessage" handler: merges an accepted message and ignores the
        rest; distinct ids stay distinct. */
    method OnReceiveMessage(message: ClientMessage)
      modifies this`Messages
      ensures Messages == if Accepts(message, ChatId, Account) then MergeReceived(old(Messages), message) else old(Messages)
      ensures DistinctIds(old(Messages)) ==> DistinctIds(Messages)
    {
      if message.chatId == Some(ChatId) && message.senderId != Account {
        if DistinctIds(Messages) {
          MergeKeepsDistinctIds(Messages, message);
        }
        Messages := MergeReceived(Messages, message);
      }
    }

    /** `sendMessage()`: does nothing without an account, without a chat id or
        when the draft trims to nothing; otherwise posts the untrimmed draft,
        clears it only on an OK response and reports an error otherwise.
        `outcome` stands for how the request ended. */
    method SendMessage(outcome: PostOutcome) returns (posted: Option<string>)
      modifies this`NewMessage, this`Error
      ensures Account.None? || ChatId == "" || JsTrim(old(NewMessage)) == "" ==>
                posted == None && NewMessage == old(NewMessage) && Error == old(Error)
      ensures posted.Some? <==> Account.Some? && ChatId != "" && JsTrim(old(NewMessage)) != ""
      ensures posted.Some? ==> posted.value == old(NewMessage)
      ensures posted.Some? && outcome == PostOk ==> NewMessage == "" && Error == old(Error)
      ensures posted.Some? && outcome == PostFailed ==> NewMessage == old(NewMessage) && Error == Some(SendFailedText)
    {
      if Account.None? || ChatId == "" || JsTrim(NewMessage) == "" {
        return None;
      }
      posted := Some(NewMessage);
      if outcome == PostOk {
        NewMessage := "";
      } else {
        Error := Some(SendFailedText);
      }
    }
  }
}
