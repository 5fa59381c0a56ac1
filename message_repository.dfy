/** FamilyChat.Infrastructure/Repositories/MessageRepository.cs: queries over the
    message table (filter, newest-first ordering, skip and take, count). */
module MessageRepository {
  import opened Wrappers
  import opened Primitives
  import opened MessageEntity

  /** Primary key: message ids are distinct. */
  predicate DistinctIds(ms: seq<Message>) {
    forall i, j :: 0 <= i < j < |ms| ==> ms[i].Id != ms[j].Id
  }

  /** LINQ `Where`: the messages satisfying `p`, each as often as in `ms`, in order. */
  function Where(ms: seq<Message>, p: Message -> bool): (r: seq<Message>)
    ensures |r| <= |ms|
    ensures forall m :: m in r ==> m in ms && p(m)
    ensures forall m :: m in ms ==> multiset(r)[m] == if p(m) then multiset(ms)[m] else 0
  {
    if ms == [] then []
    else
      assert ms == [ms[0]] + ms[1..];
      if p(ms[0]) then [ms[0]] + Where(ms[1..], p) else Where(ms[1..], p)
  }

  /** Filtering a table with one more row appended: the old result, followed by
      the new row when it passes. */
  lemma {:induction false} WhereAppend(ms: seq<Message>, m: Message, p: Message -> bool)
    ensures Where(ms + [m], p) == Where(ms, p) + (if p(m) then [m] else [])
  {
    if ms == [] {
      assert ms + [m] == [m];
      assert [m][1..] == [];
    } else {
      assert (ms + [m])[0] == ms[0];
      assert (ms + [m])[1..] == ms[1..] + [m];
      WhereAppend(ms[1..], m, p);
    }
  }

  /** Inserting a message of a chat raises that chat's count by one; other chats' counts stay. */
  lemma CountAfterInsert(ms: seq<Message>, m: Message, chatId: Guid)
    ensures GetCountByChatId(ms + [m], chatId) ==
              GetCountByChatId(ms, chatId) + (if m.ChatId == chatId then 1 else 0)
  {
    WhereAppend(ms, m, InChat(chatId));
  }

  /** Sorted by CreatedAt, newest first. */
  predicate NewestFirst(s: seq<Message>) {
    forall i, j :: 0 <= i < j < |s| ==> s[i].CreatedAt >= s[j].CreatedAt
  }

  /** No message of `s` is newer than `t`. */
  predicate NoNewerThan(s: seq<Message>, t: Instant) {
    forall i :: 0 <= i < |s| ==> s[i].CreatedAt <= t
  }

  lemma ConsNewestFirst(x: Message, s: seq<Message>)
    requires NewestFirst(s) && NoNewerThan(s, x.CreatedAt)
    ensures NewestFirst([x] + s)
  {
    var r := [x] + s;
    forall i, j | 0 <= i < j < |r| ensures r[i].CreatedAt >= r[j].CreatedAt {
      if i > 0 {
        assert r[i] == s[i - 1] && r[j] == s[j - 1];
      } else {
        assert r[j] == s[j - 1];
      }
    }
  }

  /** Puts `m` before the first message that is not newer than it. */
  function InsertNewestFirst(m: Message, s: seq<Message>): (r: seq<Message>)
    requires NewestFirst(s)
    ensures NewestFirst(r)
    ensures multiset(r) == multiset(s) + multiset{m}
    ensures forall t :: NoNewerThan(s, t) && m.CreatedAt <= t ==> NoNewerThan(r, t)
  {
    if s == [] || s[0].CreatedAt <= m.CreatedAt then
      ConsNewestFirst(m, s);
      [m] + s
    else
      TailNewestFirst(s);
      var t := InsertNewestFirst(m, s[1..]);
      InsertBehindHead(m, s, t);
      [s[0]] + t
  }

  lemma TailNewestFirst(s: seq<Message>)
    requires NewestFirst(s) && s != []
    ensures NewestFirst(s[1..]) && NoNewerThan(s[1..], s[0].CreatedAt)
  {
    assert forall i :: 0 <= i < |s| - 1 ==> s[1..][i] == s[i + 1];
  }

  /** Keeping the head in front of the tail with `m` inserted keeps the order,
      the contents and the bound. */
  lemma InsertBehindHead(m: Message, s: seq<Message>, t: seq<Message>)
    requires s != [] && NewestFirst(s[1..]) && NoNewerThan(s[1..], s[0].CreatedAt)
    requires m.CreatedAt < s[0].CreatedAt
    requires NewestFirst(t) && multiset(t) == multiset(s[1..]) + multiset{m}
    requires forall b :: NoNewerThan(s[1..], b) && m.CreatedAt <= b ==> NoNewerThan(t, b)
    ensures NewestFirst([s[0]] + t)
    ensures multiset([s[0]] + t) == multiset(s) + multiset{m}
    ensures forall b :: NoNewerThan(s, b) && m.CreatedAt <= b ==> NoNewerThan([s[0]] + t, b)
  {
    assert NoNewerThan(t, s[0].CreatedAt);
    ConsNewestFirst(s[0], t);
    assert s == [s[0]] + s[1..];
    var r := [s[0]] + t;
    forall b | NoNewerThan(s, b) && m.CreatedAt <= b ensures NoNewerThan(r, b) {
      assert NoNewerThan(s[1..], b) by {
        assert forall i :: 0 <= i < |s| - 1 ==> s[1..][i] == s[i + 1];
      }
      assert forall i :: 1 <= i < |r| ==> r[i] == t[i - 1];
    }
  }

  /** LINQ `OrderByDescending(m => m.CreatedAt)`, as a stable insertion sort. */
  function SortNewestFirst(s: seq<Message>): (r: seq<Message>)
    ensures NewestFirst(r)
    ensures multiset(r) == multiset(s)
  {
    if s == [] then []
    else
      assert s == [s[0]] + s[1..];
      InsertNewestFirst(s[0], SortNewestFirst(s[1..]))
  }

  /** `Skip(n)`, run as SQLite's `OFFSET n`: drops the first `n` elements; a
      negative `n` drops none. */
  function Skip(s: seq<Message>, n: int): (r: seq<Message>)
    ensures |r| == if n <= 0 then |s| else if n >= |s| then 0 else |s| - n
    ensures r == s[|s| - |r|..]
  {
    if n <= 0 then s else if n >= |s| then [] else s[n..]
  }

  /** `Take(n)`, run as SQLite's `LIMIT n`: keeps the first `n` elements; a
      negative `n` is no limit and keeps them all. */
  function Take(s: seq<Message>, n: int): (r: seq<Message>)
    ensures |r| == if n < 0 || n >= |s| then |s| else n
    ensures r == s[..|r|]
  {
    if n < 0 || n >= |s| then s else s[..n]
  }

  lemma SliceNewestFirst(s: seq<Message>, a: nat, b: nat)
    requires NewestFirst(s) && a <= b <= |s|
    ensures NewestFirst(s[a..b])
  {
    assert forall i :: 0 <= i < b - a ==> s[a..b][i] == s[a + i];
  }

  /** `m => m.ChatId == chatId` */
  function InChat(chatId: Guid): Message -> bool {
    (m: Message) => m.ChatId == chatId
  }

  /** `m => m.SenderId == userId` */
  function SentBy(userId: Guid): Message -> bool {
    (m: Message) => m.SenderId == userId
  }

  /** `GetCountByChatIdAsync(chatId)`: the number of stored messages of that chat. */
  function GetCountByChatId(ms: seq<Message>, chatId: Guid): (r: nat)
    ensures r <= |ms|
  {
    |Where(ms, InChat(chatId))|
  }

  /** `GetByChatIdAsync(chatId, skip, take)`: the chat's messages, newest first,
      with `skip` dropped and then at most `take` kept (the query runs as
      `LIMIT take OFFSET skip` on SQLite, so a negative `take` keeps all and a
      negative `skip` drops none). Every result belongs to the chat and is
      stored, the page is in order, and its length is what is left of the
      chat's count after the skip, capped at a non-negative `take`; no
      message appears more often than it does in the chat. Which run of the
      chat's messages the page is, is stated by `PageIsRunOfChat`. */
  function GetByChatId(ms: seq<Message>, chatId: Guid, skip: int := 0, take: int := 50)
    : (r: seq<Message>)
    ensures forall m :: m in r ==> m in ms && m.ChatId == chatId
    ensures NewestFirst(r)
    ensures var n := GetCountByChatId(ms, chatId);
            var left := if skip <= 0 then n else if skip >= n then 0 else n - skip;
            |r| == if take < 0 || take >= left then left else take
    ensures multiset(r) <= multiset(Where(ms, InChat(chatId)))
  {
    var w := Where(ms, InChat(chatId));
    var sorted := SortNewestFirst(w);
    SortedKeepsMembers(w);
    PageOfSorted(sorted, skip, take);
    Take(Skip(sorted, skip), take)
  }

  /** Sorting keeps the elements and the length. */
  lemma SortedKeepsMembers(w: seq<Message>)
    ensures |SortNewestFirst(w)| == |w|
    ensures forall m :: m in SortNewestFirst(w) ==> m in w
  {
    var sorted := SortNewestFirst(w);
    assert |multiset(sorted)| == |multiset(w)|;
    assert forall m :: m in sorted ==> m in multiset(sorted);
  }

  /** The page is the run starting at the skip of some newest-first
      arrangement of exactly the chat's messages (the query does not order
      messages with equal `CreatedAt`, so any arrangement of those is allowed). */
  lemma {:induction false} PageIsRunOfChat(ms: seq<Message>, chatId: Guid, skip: int, take: int)
    ensures exists s :: RunOfArrangement(GetByChatId(ms, chatId, skip, take), s, Where(ms, InChat(chatId)), skip)
  {
    var w := Where(ms, InChat(chatId));
    var sorted := SortNewestFirst(w);
    var r := GetByChatId(ms, chatId, skip, take);
    assert r == Take(Skip(sorted, skip), take);
    PageOfSorted(sorted, skip, take);
    assert RunOfArrangement(r, sorted, w, skip);
  }

  /** `r` is the run of `s` that starts at the skip (clamped to `s`). */
  predicate RunAt(r: seq<Message>, s: seq<Message>, skip: int) {
    var start := if skip <= 0 then 0 else if skip >= |s| then |s| else skip;
    start + |r| <= |s| && r == s[start..start + |r|]
  }

  /** `s` orders the messages of `w` newest first, and `r` is the run of `s`
      that starts at the skip. */
  predicate RunOfArrangement(r: seq<Message>, s: seq<Message>, w: seq<Message>, skip: int) {
    NewestFirst(s) && multiset(s) == multiset(w) && RunAt(r, s, skip)
  }

  /** A page of a newest-first list is the newest-first run of it that starts
      at the skip. */
  lemma PageOfSorted(sorted: seq<Message>, skip: int, take: int)
    requires NewestFirst(sorted)
    ensures var r := Take(Skip(sorted, skip), take);
            && RunAt(r, sorted, skip)
            && NewestFirst(r) && (forall m :: m in r ==> m in sorted)
            && multiset(r) <= multiset(sorted)
  {
    var rest := Skip(sorted, skip);
    var start := |sorted| - |rest|;
    var r := Take(rest, take);
    assert r == sorted[start..start + |r|];
    SliceNewestFirst(sorted, start, start + |r|);
    assert sorted == sorted[..start] + r + sorted[start + |r|..];
  }

  /** With no skip and a `take` that is negative or no smaller than the count,
      the page holds every message of the chat, each once. */
  lemma {:induction false} FullPageHoldsChat(ms: seq<Message>, chatId: Guid, take: int)
    requires take < 0 || take >= GetCountByChatId(ms, chatId)
    ensures multiset(GetByChatId(ms, chatId, 0, take)) == multiset(Where(ms, InChat(chatId)))
    ensures forall m :: m in ms && m.ChatId == chatId ==> m in GetByChatId(ms, chatId, 0, take)
  {
    var w := Where(ms, InChat(chatId));
    var sorted := SortNewestFirst(w);
    assert |sorted| == |w| by { assert |multiset(sorted)| == |multiset(w)|; }
    assert GetByChatId(ms, chatId, 0, take) == sorted;
    forall m: Message | m in ms && m.ChatId == chatId ensures m in sorted {
      assert m in multiset(ms);
      assert m in multiset(w);
    }
  }

  /** `GetByUserIdAsync(userId)`: exactly the messages that user sent, newest first. */
  function GetByUserId(ms: seq<Message>, userId: Guid): (r: seq<Message>)
    ensures NewestFirst(r)
    ensures forall m :: m in r ==> m in ms && m.SenderId == userId
    ensures forall m :: m in ms ==> multiset(r)[m] == if m.SenderId == userId then multiset(ms)[m] else 0
  {
    var w := Where(ms, SentBy(userId));
    var r := SortNewestFirst(w);
    assert forall m :: m in r ==> m in multiset(w);
    r
  }

  // `GetById` and `Exists` stand for the one generic base repository the three
  // repositories share; the model writes them once per table because each
  // table holds a different entity class.

  /** `GetByIdAsync(id)`: the first message with that id, or null. */
  function GetById(ms: seq<Message>, id: Guid): (r: Option<Message>)
    ensures r.Some? ==> r.value in ms && r.value.Id == id
    ensures r.None? <==> forall i :: 0 <= i < |ms| ==> ms[i].Id != id
  {
    if ms == [] then None
    else if ms[0].Id == id then Some(ms[0])
    else GetById(ms[1..], id)
  }

  /** `ExistsAsync(id)` holds exactly when `GetByIdAsync(id)` finds a message. */
  function Exists(ms: seq<Message>, id: Guid): (r: bool)
    ensures r <==> GetById(ms, id).Some?
  {
    exists i :: 0 <= i < |ms| && ms[i].Id == id
  }
}
