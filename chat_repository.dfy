/** FamilyChat.Infrastructure/Repositories/ChatRepository.cs: queries over the
    chat table and its members. */
module ChatRepository {
  import opened Wrappers
  import opened Primitives
  import opened ChatEntity

  /** Primary key: chat ids are distinct. */
  predicate DistinctIds(chats: seq<Chat>) {
    forall i, j :: 0 <= i < j < |chats| ==> chats[i].Id != chats[j].Id
  }

  // `GetById`, `Exists` and `GetByIdIsTheMatch` stand for the one generic base
  // repository the three repositories share; the model writes them once per
  // table because each table holds a different entity class.

  /** `GetByIdAsync(id)`: the first chat with that id, or null. */
  function GetById(chats: seq<Chat>, id: Guid): (r: Option<Chat>)
    ensures r.Some? ==> r.value in chats && r.value.Id == id
    ensures r.None? <==> forall i :: 0 <= i < |chats| ==> chats[i].Id != id
  {
    if chats == [] then None
    else if chats[0].Id == id then Some(chats[0])
    else GetById(chats[1..], id)
  }

  /** `ExistsAsync(id)`: some stored chat has that id; equivalently `GetByIdAsync` finds one. */
  function Exists(chats: seq<Chat>, id: Guid): (r: bool)
    ensures r <==> GetById(chats, id).Some?
  {
    exists i :: 0 <= i < |chats| && chats[i].Id == id
  }

  /** With distinct keys, `GetById` of a stored chat's id is that chat. */
  lemma GetByIdIsTheMatch(chats: seq<Chat>, c: Chat)
    requires DistinctIds(chats) && c in chats
    ensures GetById(chats, c.Id) == Some(c)
  {
    var i :| 0 <= i < |chats| && chats[i] == c;
    var j :| 0 <= j < |chats| && chats[j] == GetById(chats, c.Id).value;
  }

  /** `IsUserMemberAsync(chatId, userId)`: some chat with that id has a member
      with that user-id; so the chat exists. */
  function IsUserMember(chats: seq<Chat>, chatId: Guid, userId: Guid): (r: bool)
    reads chats
    ensures r ==> Exists(chats, chatId)
  {
    exists i :: 0 <= i < |chats| && chats[i].Id == chatId && HasUser(chats[i].Members, userId)
  }

  /** With distinct keys, membership is decided by the one chat with that id. */
  lemma IsUserMemberOfTheChat(chats: seq<Chat>, chatId: Guid, userId: Guid)
    requires DistinctIds(chats)
    ensures IsUserMember(chats, chatId, userId) <==>
              GetById(chats, chatId).Some? && HasUser(GetById(chats, chatId).value.Members, userId)
  {
    var g := GetById(chats, chatId);
    if g.Some? {
      var c := g.value;
      var j :| 0 <= j < |chats| && chats[j] == c;
      if IsUserMember(chats, chatId, userId) {
        var i :| 0 <= i < |chats| && chats[i].Id == chatId && HasUser(chats[i].Members, userId);
        assert i == j;
      }
    }
  }

  /** `GetByUserIdAsync(userId)`: exactly the stored chats that have that user
      as a member, in table order. */
  function GetByUserId(chats: seq<Chat>, userId: Guid): (r: seq<Chat>)
    reads chats
    ensures |r| <= |chats|
    ensures forall c :: c in r ==> c in chats && HasUser(c.Members, userId)
    ensures forall c :: c in chats && HasUser(c.Members, userId) ==> c in r
    ensures forall c :: c in chats ==>
              multiset(r)[c] == if HasUser(c.Members, userId) then multiset(chats)[c] else 0
  {
    if chats == [] then []
    else
      assert chats == [chats[0]] + chats[1..];
      if HasUser(chats[0].Members, userId) then [chats[0]] + GetByUserId(chats[1..], userId)
      else GetByUserId(chats[1..], userId)
  }

  /** Table order: with one more chat appended, the result is the old result
      followed by that chat when it has the user. */
  lemma {:induction false} GetByUserIdAppend(chats: seq<Chat>, c: Chat, userId: Guid)
    ensures GetByUserId(chats + [c], userId) ==
              GetByUserId(chats, userId) + (if HasUser(c.Members, userId) then [c] else [])
  {
    if chats == [] {
      assert chats + [c] == [c];
      assert [c][1..] == [];
    } else {
      assert (chats + [c])[0] == chats[0];
      assert (chats + [c])[1..] == chats[1..] + [c];
      GetByUserIdAppend(chats[1..], c, userId);
    }
  }

  /** `GetDefaultChatAsync()`: the first chat marked default, or null when none is. */
  function GetDefaultChat(chats: seq<Chat>): (r: Option<Chat>)
    ensures r.Some? ==> r.value in chats && r.value.IsDefault
    ensures r.None? <==> forall i :: 0 <= i < |chats| ==> !chats[i].IsDefault
  {
    if chats == [] then None
    else if chats[0].IsDefault then Some(chats[0])
    else GetDefaultChat(chats[1..])
  }

  /** Once a chat marked default is inserted, `GetDefaultChat` finds one. */
  lemma InsertedDefaultIsFound(chats: seq<Chat>, c: Chat)
    requires c.IsDefault
    ensures GetDefaultChat(chats + [c]).Some?
  {
    assert (chats + [c])[|chats|] == c;
  }

  /** After inserting `c`, exactly the old ids and `c.Id` are stored. */
  lemma ExistsAfterInsert(chats: seq<Chat>, c: Chat)
    ensures forall id :: Exists(chats + [c], id) <==> Exists(chats, id) || id == c.Id
  {
    var r := chats + [c];
    assert r[|chats|] == c;
    forall id | Exists(chats, id) ensures Exists(r, id) {
      var i :| 0 <= i < |chats| && chats[i].Id == id;
      assert r[i].Id == id;
    }
    forall id | Exists(r, id) ensures Exists(chats, id) || id == c.Id {
      var i :| 0 <= i < |r| && r[i].Id == id;
      if i < |chats| { assert chats[i].Id == id; }
    }
  }
}
