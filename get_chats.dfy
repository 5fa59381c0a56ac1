/** FamilyChat.Application/Chats/Queries/GetChats: the chat list. */
module GetChatsQueryHandler {
  import opened Primitives
  import opened ChatEntity
  import ChatRepository

  /** One row of the chat list; `Id` is the chat's Guid as a string. */
  datatype GetChatsResponse = GetChatsResponse(Id: string, Name: string, CreatedBy: string, CreatedAt: Instant)

  /** The creator column is a placeholder the handler always fills with this text. */
  const CreatedByPlaceholder: string := "todo"

  /** `Handle(query)`: one row per stored chat, in table order. */
  function Handle(chats: seq<Chat>): (r: seq<GetChatsResponse>)
    ensures |r| == |chats|
    ensures forall i :: 0 <= i < |r| ==>
              && r[i].Id == GuidToString(chats[i].Id) && |r[i].Id| == 36
              && r[i].Name == chats[i].Name && r[i].CreatedAt == chats[i].CreatedAt
              && r[i].CreatedBy == CreatedByPlaceholder
  {
    seq(|chats|, i requires 0 <= i < |chats| =>
      GetChatsResponse(GuidToString(chats[i].Id), chats[i].Name, CreatedByPlaceholder, chats[i].CreatedAt))
  }

  /** Two rows carry the same id string exactly when their chats have the same id,
      so with distinct keys the rows' ids are distinct too. */
  lemma RowIdsIdentifyChats(chats: seq<Chat>, i: nat, j: nat)
    requires i < |chats| && j < |chats|
    ensures Handle(chats)[i].Id == Handle(chats)[j].Id <==> chats[i].Id == chats[j].Id
  {
    if Handle(chats)[i].Id == Handle(chats)[j].Id {
      GuidToStringInjective(chats[i].Id, chats[j].Id);
    }
  }

  lemma RowIdsDistinct(chats: seq<Chat>)
    requires ChatRepository.DistinctIds(chats)
    ensures forall i, j :: 0 <= i < j < |chats| ==> Handle(chats)[i].Id != Handle(chats)[j].Id
  {
    forall i, j | 0 <= i < j < |chats| ensures Handle(chats)[i].Id != Handle(chats)[j].Id {
      RowIdsIdentifyChats(chats, i, j);
    }
  }
}
