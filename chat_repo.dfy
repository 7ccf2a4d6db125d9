/**
  The chat repository: a primary table `chat:<id>` -> chat and a recency
  index `chat_index:<inverted updatedAt>:<id>` -> summary, kept consistent by
  every operation. The operations on the two tables are given first as
  transitions of a `Store` value; `ChatRepository` performs them step by
  step on its two mutable tables.
*/
module ChatRepo {
  import opened Wrappers
  import opened Text
  import opened KeyOrder
  import opened Types
  import opened ChatKeys
  import opened ChatTitle

  datatype Store = Store(chatMemory: map<string, Chat>, chatIndex: map<string, ChatSummary>)

  /** The index row of `chat` is present, under its current key, with its summary. */
  predicate Indexed(index: map<string, ChatSummary>, chat: Chat)
  {
    IndexKey(chat.updatedAt, chat.id) in index && index[IndexKey(chat.updatedAt, chat.id)] == ToSummary(chat)
  }

  /** Index consistency: each stored chat is filed under its own id and has its
      row in the index; every index row is the row of a stored chat, keyed by
      that chat's current `updatedAt`. */
  ghost predicate Consistent(s: Store)
  {
    && (forall k | k in s.chatMemory :: k == ChatKey(s.chatMemory[k].id) && Indexed(s.chatIndex, s.chatMemory[k]))
    && (forall ik | ik in s.chatIndex ::
          && ChatKey(s.chatIndex[ik].id) in s.chatMemory
          && ik == IndexKey(s.chatMemory[ChatKey(s.chatIndex[ik].id)].updatedAt, s.chatIndex[ik].id))
  }

  /** `getChat`: absence is a normal result. */
  function Lookup(s: Store, id: string): Option<Chat>
  {
    if ChatKey(id) in s.chatMemory then Some(s.chatMemory[ChatKey(id)]) else None
  }

  /** The index rows that carry the summary of chat `id`. */
  ghost function RowsFor(index: map<string, ChatSummary>, id: string): set<string>
  {
    set k | k in index && index[k].id == id
  }

  /** `upsertChat`: drop the row of the stored version (if any), then write the
      record and the row of the new version. */
  function Upserted(s: Store, chat: Chat): Store
  {
    var index := if ChatKey(chat.id) in s.chatMemory
      then s.chatIndex - {IndexKey(s.chatMemory[ChatKey(chat.id)].updatedAt, s.chatMemory[ChatKey(chat.id)].id)}
      else s.chatIndex;
    Store(s.chatMemory[ChatKey(chat.id) := chat], index[IndexKey(chat.updatedAt, chat.id) := ToSummary(chat)])
  }

  /** `deleteChat`: remove the record and the row keyed by its stored `updatedAt`. */
  function Deleted(s: Store, id: string): Store
  {
    if ChatKey(id) !in s.chatMemory then s
    else
      var existing := s.chatMemory[ChatKey(id)];
      Store(s.chatMemory - {ChatKey(id)}, s.chatIndex - {IndexKey(existing.updatedAt, existing.id)})
  }

  // ---- facts about consistent stores ----

  lemma LookupFindsId(s: Store, id: string)
    requires Consistent(s)
    ensures Lookup(s, id).Some? ==> Lookup(s, id).value.id == id
  {
    if ChatKey(id) in s.chatMemory {
      ChatKeyInjective(id, s.chatMemory[ChatKey(id)].id);
    }
  }

  /** Each index row is the summary of the stored chat it names, under that chat's key. */
  lemma RowIsCurrent(s: Store, ik: string)
    requires Consistent(s) && ik in s.chatIndex
    ensures Lookup(s, s.chatIndex[ik].id).Some?
    ensures s.chatIndex[ik] == ToSummary(Lookup(s, s.chatIndex[ik].id).value)
    ensures ik == IndexKey(s.chatIndex[ik].updatedAt, s.chatIndex[ik].id)
  {
    var id := s.chatIndex[ik].id;
    LookupFindsId(s, id);
  }

  /** The invariant as stated for one chat: a stored chat has exactly one row,
      under its current key; an absent chat has none. */
  lemma ExactlyOneRow(s: Store, id: string)
    requires Consistent(s)
    ensures Lookup(s, id).Some? ==>
      RowsFor(s.chatIndex, id) == {IndexKey(Lookup(s, id).value.updatedAt, id)}
    ensures Lookup(s, id).None? ==> RowsFor(s.chatIndex, id) == {}
  {
    LookupFindsId(s, id);
    forall ik | ik in RowsFor(s.chatIndex, id)
      ensures Lookup(s, id).Some? && ik == IndexKey(Lookup(s, id).value.updatedAt, id)
    {
      RowIsCurrent(s, ik);
    }
    if Lookup(s, id).Some? {
      assert IndexKey(Lookup(s, id).value.updatedAt, id) in RowsFor(s.chatIndex, id);
    }
  }

  /** The index is empty exactly when no chat is stored. */
  lemma EmptyIndexIffNoChats(s: Store)
    requires Consistent(s)
    ensures s.chatIndex == map[] <==> s.chatMemory == map[]
  {
    if s.chatMemory != map[] {
      var k :| k in s.chatMemory;
      assert IndexKey(s.chatMemory[k].updatedAt, s.chatMemory[k].id) in s.chatIndex;
    }
    if s.chatIndex != map[] {
      var ik :| ik in s.chatIndex;
      assert ChatKey(s.chatIndex[ik].id) in s.chatMemory;
    }
  }

  // ---- upsert ----

  /** After an upsert, every record is filed under its id and indexed. */
  lemma UpsertedRecord(s: Store, chat: Chat, k: string)
    requires Consistent(s) && k in Upserted(s, chat).chatMemory
    ensures var u := Upserted(s, chat);
      k == ChatKey(u.chatMemory[k].id) && Indexed(u.chatIndex, u.chatMemory[k])
  {
    var ck := ChatKey(chat.id);
    if k != ck {
      var c := s.chatMemory[k];
      assert k == ChatKey(c.id) && Indexed(s.chatIndex, c);
      ChatKeyInjective(c.id, chat.id);
      var ok := IndexKey(c.updatedAt, c.id);
      if ok == IndexKey(chat.updatedAt, chat.id) {
        IndexKeyDeterminesId(c.updatedAt, c.id, chat.updatedAt, chat.id);
      }
      if ck in s.chatMemory {
        var e := s.chatMemory[ck];
        assert ck == ChatKey(e.id);
        if ok == IndexKey(e.updatedAt, e.id) {
          IndexKeyDeterminesId(c.updatedAt, c.id, e.updatedAt, e.id);
          ChatKeyInjective(e.id, chat.id);
        }
      }
    }
  }

  /** After an upsert, every index row belongs to a record, under its current key. */
  lemma UpsertedRow(s: Store, chat: Chat, ik: string)
    requires Consistent(s) && ik in Upserted(s, chat).chatIndex
    ensures var u := Upserted(s, chat);
      && ChatKey(u.chatIndex[ik].id) in u.chatMemory
      && ik == IndexKey(u.chatMemory[ChatKey(u.chatIndex[ik].id)].updatedAt, u.chatIndex[ik].id)
  {
    var ck := ChatKey(chat.id);
    if ik != IndexKey(chat.updatedAt, chat.id) {
      assert ik in s.chatIndex;
      var id := s.chatIndex[ik].id;
      assert ChatKey(id) in s.chatMemory && ik == IndexKey(s.chatMemory[ChatKey(id)].updatedAt, id);
      if ck in s.chatMemory {
        var e := s.chatMemory[ck];
        assert ck == ChatKey(e.id);
        ChatKeyInjective(e.id, chat.id);
        assert ik != IndexKey(e.updatedAt, chat.id);
      }
      ChatKeyInjective(id, chat.id);
      assert ChatKey(id) != ck;
    }
  }

  lemma UpsertedConsistent(s: Store, chat: Chat)
    requires Consistent(s)
    ensures Consistent(Upserted(s, chat))
  {
    var u := Upserted(s, chat);
    forall k | k in u.chatMemory
      ensures k == ChatKey(u.chatMemory[k].id) && Indexed(u.chatIndex, u.chatMemory[k])
    {
      UpsertedRecord(s, chat, k);
    }
    forall ik | ik in u.chatIndex
      ensures ChatKey(u.chatIndex[ik].id) in u.chatMemory
      ensures ik == IndexKey(u.chatMemory[ChatKey(u.chatIndex[ik].id)].updatedAt, u.chatIndex[ik].id)
    {
      UpsertedRow(s, chat, ik);
    }
  }

  /** What `upsertChat` promises: the record is `chat`, its one row is under its
      new key with its summary (the old row is gone), other chats keep their
      records and rows. */
  lemma UpsertedEffect(s: Store, chat: Chat)
    requires Consistent(s)
    ensures var u := Upserted(s, chat);
      && Lookup(u, chat.id) == Some(chat)
      && RowsFor(u.chatIndex, chat.id) == {IndexKey(chat.updatedAt, chat.id)}
      && u.chatIndex[IndexKey(chat.updatedAt, chat.id)] == ToSummary(chat)
      && (forall t :: IndexKey(t, chat.id) in u.chatIndex ==> IndexKey(t, chat.id) == IndexKey(chat.updatedAt, chat.id))
      && (forall id :: id != chat.id ==> Lookup(u, id) == Lookup(s, id))
      && (forall ik :: ik in s.chatIndex && s.chatIndex[ik].id != chat.id ==> ik in u.chatIndex && u.chatIndex[ik] == s.chatIndex[ik])
  {
    var u := Upserted(s, chat);
    UpsertedConsistent(s, chat);
    ExactlyOneRow(u, chat.id);
    forall t | IndexKey(t, chat.id) in u.chatIndex
      ensures IndexKey(t, chat.id) == IndexKey(chat.updatedAt, chat.id)
    {
      RowIsCurrent(u, IndexKey(t, chat.id));
      IndexKeyDeterminesId(t, chat.id, u.chatIndex[IndexKey(t, chat.id)].updatedAt, u.chatIndex[IndexKey(t, chat.id)].id);
      assert IndexKey(t, chat.id) in RowsFor(u.chatIndex, chat.id);
    }
    forall id | id != chat.id ensures Lookup(u, id) == Lookup(s, id) {
      ChatKeyInjective(id, chat.id);
    }
    forall ik | ik in s.chatIndex && s.chatIndex[ik].id != chat.id
      ensures ik in u.chatIndex && u.chatIndex[ik] == s.chatIndex[ik]
    {
      UpsertedKeepsOtherRow(s, chat, ik);
    }
  }

  lemma UpsertedKeepsOtherRow(s: Store, chat: Chat, ik: string)
    requires Consistent(s) && ik in s.chatIndex && s.chatIndex[ik].id != chat.id
    ensures ik in Upserted(s, chat).chatIndex && Upserted(s, chat).chatIndex[ik] == s.chatIndex[ik]
  {
    RowIsCurrent(s, ik);
    var id := s.chatIndex[ik].id;
    if ik == IndexKey(chat.updatedAt, chat.id) {
      IndexKeyDeterminesId(s.chatIndex[ik].updatedAt, id, chat.updatedAt, chat.id);
    }
    if ChatKey(chat.id) in s.chatMemory {
      var e := s.chatMemory[ChatKey(chat.id)];
      if ik == IndexKey(e.updatedAt, e.id) {
        IndexKeyDeterminesId(s.chatIndex[ik].updatedAt, id, e.updatedAt, e.id);
        LookupFindsId(s, chat.id);
      }
    }
  }

  // ---- delete ----

  lemma DeletedConsistent(s: Store, id: string)
    requires Consistent(s)
    ensures Consistent(Deleted(s, id))
  {
    var ck := ChatKey(id);
    if ck in s.chatMemory {
      var d := Deleted(s, id);
      var e := s.chatMemory[ck];
      var ek := IndexKey(e.updatedAt, e.id);
      forall k | k in d.chatMemory ensures Indexed(d.chatIndex, d.chatMemory[k]) {
        var c := s.chatMemory[k];
        if IndexKey(c.updatedAt, c.id) == ek {
          IndexKeyDeterminesId(c.updatedAt, c.id, e.updatedAt, e.id);
        }
      }
      forall ik | ik in d.chatIndex ensures ChatKey(d.chatIndex[ik].id) in d.chatMemory {
        var cid := s.chatIndex[ik].id;
        if ChatKey(cid) == ck {
          ChatKeyInjective(cid, e.id);
        }
      }
    }
  }

  /** What `deleteChat` promises: the chat and all its rows are gone, other
      chats keep their records and rows. */
  lemma DeletedEffect(s: Store, id: string)
    requires Consistent(s)
    ensures var d := Deleted(s, id);
      && Lookup(d, id) == None
      && RowsFor(d.chatIndex, id) == {}
      && (forall other :: other != id ==> Lookup(d, other) == Lookup(s, other))
      && (forall ik :: ik in s.chatIndex && s.chatIndex[ik].id != id ==> ik in d.chatIndex && d.chatIndex[ik] == s.chatIndex[ik])
  {
    var d := Deleted(s, id);
    DeletedConsistent(s, id);
    ExactlyOneRow(d, id);
    forall other | other != id ensures Lookup(d, other) == Lookup(s, other) {
      ChatKeyInjective(other, id);
    }
    forall ik | ik in s.chatIndex && s.chatIndex[ik].id != id
      ensures ik in d.chatIndex && d.chatIndex[ik] == s.chatIndex[ik]
    {
      if ChatKey(id) in s.chatMemory {
        var e := s.chatMemory[ChatKey(id)];
        RowIsCurrent(s, ik);
        if ik == IndexKey(e.updatedAt, e.id) {
          IndexKeyDeterminesId(s.chatIndex[ik].updatedAt, s.chatIndex[ik].id, e.updatedAt, e.id);
          LookupFindsId(s, id);
        }
      }
    }
  }

  // ---- listing ----

  /** `listChats`: the index values in ascending key order. */
  function Listing(index: map<string, ChatSummary>): (rows: seq<ChatSummary>)
    ensures |rows| == |index|
  {
    var keys := SortedKeys(index.Keys);
    seq(|keys|, i requires 0 <= i < |keys| => index[keys[i]])
  }

  /** Row `i` of the listing is the index value under the `i`-th smallest key. */
  lemma ListingAt(index: map<string, ChatSummary>, i: nat)
    requires i < |Listing(index)|
    ensures SortedKeys(index.Keys)[i] in index
    ensures Listing(index)[i] == index[SortedKeys(index.Keys)[i]]
  {
  }

  /** Every listed row is the current summary of a stored chat. */
  lemma ListingRowsAreCurrent(s: Store)
    requires Consistent(s)
    ensures forall i :: 0 <= i < |Listing(s.chatIndex)| ==>
      Lookup(s, Listing(s.chatIndex)[i].id).Some?
      && Listing(s.chatIndex)[i] == ToSummary(Lookup(s, Listing(s.chatIndex)[i].id).value)
  {
    forall i | 0 <= i < |Listing(s.chatIndex)|
      ensures Lookup(s, Listing(s.chatIndex)[i].id).Some?
      ensures Listing(s.chatIndex)[i] == ToSummary(Lookup(s, Listing(s.chatIndex)[i].id).value)
    {
      ListingAt(s.chatIndex, i);
      RowIsCurrent(s, SortedKeys(s.chatIndex.Keys)[i]);
    }
  }

  /** Every stored chat is listed. */
  lemma ListingCoversChats(s: Store, id: string)
    requires Consistent(s) && Lookup(s, id).Some?
    ensures exists i :: 0 <= i < |Listing(s.chatIndex)| && Listing(s.chatIndex)[i].id == id
  {
    var rows := Listing(s.chatIndex);
    var keys := SortedKeys(s.chatIndex.Keys);
    LookupFindsId(s, id);
    var c := Lookup(s, id).value;
    var k := IndexKey(c.updatedAt, id);
    assert k in keys;
    var i :| 0 <= i < |keys| && keys[i] == k;
    assert rows[i] == s.chatIndex[k];
  }

  /** No chat is listed twice. */
  lemma ListingHasNoDuplicates(s: Store)
    requires Consistent(s)
    ensures var rows := Listing(s.chatIndex);
      forall i, j :: 0 <= i < j < |rows| ==> rows[i].id != rows[j].id
  {
    var rows := Listing(s.chatIndex);
    var keys := SortedKeys(s.chatIndex.Keys);
    forall i, j | 0 <= i < j < |rows| ensures rows[i].id != rows[j].id {
      assert rows[i] == s.chatIndex[keys[i]] && rows[j] == s.chatIndex[keys[j]];
      RowIsCurrent(s, keys[i]);
      RowIsCurrent(s, keys[j]);
      LexLessIrreflexive(keys[i]);
    }
  }

  ghost predicate TimestampsInRange(s: Store)
  {
    forall k | k in s.chatMemory :: InTsRange(s.chatMemory[k].updatedAt)
  }

  /** The listing is most recently updated first, ties by ascending id. */
  lemma ListingIsByRecency(s: Store)
    requires Consistent(s) && TimestampsInRange(s)
    ensures var rows := Listing(s.chatIndex);
      forall i, j :: 0 <= i < j < |rows| ==>
        rows[i].updatedAt > rows[j].updatedAt
        || (rows[i].updatedAt == rows[j].updatedAt && LexLess(rows[i].id, rows[j].id))
  {
    var rows := Listing(s.chatIndex);
    var keys := SortedKeys(s.chatIndex.Keys);
    forall i, j | 0 <= i < j < |rows|
      ensures rows[i].updatedAt > rows[j].updatedAt
        || (rows[i].updatedAt == rows[j].updatedAt && LexLess(rows[i].id, rows[j].id))
    {
      var a, b := rows[i], rows[j];
      RowIsCurrent(s, keys[i]);
      RowIsCurrent(s, keys[j]);
      assert keys[i] == IndexKey(a.updatedAt, a.id) && keys[j] == IndexKey(b.updatedAt, b.id);
      assert InTsRange(a.updatedAt) by { assert ChatKey(a.id) in s.chatMemory; }
      assert InTsRange(b.updatedAt) by { assert ChatKey(b.id) in s.chatMemory; }
      if a.updatedAt < b.updatedAt {
        IndexKeyOrder(a.updatedAt, a.id, b.updatedAt, b.id);
        LexLessAsymmetric(keys[i], keys[j]);
      } else if a.updatedAt == b.updatedAt {
        IndexKeyTieOrder(a.updatedAt, a.id, b.id);
      }
    }
  }

  /** The chat updated last, strictly after every other, is listed first. */
  lemma MostRecentListedFirst(s: Store, id: string)
    requires Consistent(s) && TimestampsInRange(s) && Lookup(s, id).Some?
    requires forall k | k in s.chatMemory && k != ChatKey(id) ::
      s.chatMemory[k].updatedAt < Lookup(s, id).value.updatedAt
    ensures |Listing(s.chatIndex)| > 0 && Listing(s.chatIndex)[0].id == id
  {
    var rows := Listing(s.chatIndex);
    ListingCoversChats(s, id);
    ListingRowsAreCurrent(s);
    ListingHasNoDuplicates(s);
    ListingIsByRecency(s);
    forall j | 0 < j < |rows| ensures rows[j].id != id {
      LookupFindsId(s, rows[0].id);
      ChatKeyInjective(rows[0].id, id);
    }
  }

  /** A deleted chat is no longer listed. */
  lemma DeletedNotListed(s: Store, id: string)
    requires Consistent(s)
    ensures forall i :: 0 <= i < |Listing(Deleted(s, id).chatIndex)| ==> Listing(Deleted(s, id).chatIndex)[i].id != id
  {
    var d := Deleted(s, id);
    DeletedEffect(s, id);
    forall i | 0 <= i < |Listing(d.chatIndex)| ensures Listing(d.chatIndex)[i].id != id {
      ListingAt(d.chatIndex, i);
      var k := SortedKeys(d.chatIndex.Keys)[i];
      assert d.chatIndex[k].id == id ==> k in RowsFor(d.chatIndex, id);
    }
  }

  // ---- appending messages ----

  /** `m.role === "user" && m.content.trim().length > 0`. */
  predicate IsTitleSource(m: Message)
  {
    m.role == User && |Trim(m.content)| > 0
  }

  predicate HasUserMessage(messages: seq<Message>)
  {
    exists i :: 0 <= i < |messages| && messages[i].role == User
  }

  /** The position of the first message at or after `from` a title may
      come from, or -1. */
  function FindTitleSourceFrom(messages: seq<Message>, from: nat): (i: int)
    requires from <= |messages|
    ensures -1 <= i < |messages|
    ensures i >= 0 ==> from <= i && IsTitleSource(messages[i])
    ensures forall j :: from <= j < |messages| && (i < 0 || j < i) ==> !IsTitleSource(messages[j])
    decreases |messages| - from
  {
    if from == |messages| then -1
    else if IsTitleSource(messages[from]) then from
    else FindTitleSourceFrom(messages, from + 1)
  }

  /** The position of the first message a title may come from, or -1. */
  function FindTitleSource(messages: seq<Message>): (i: int)
    ensures -1 <= i < |messages|
    ensures i >= 0 ==> IsTitleSource(messages[i])
    ensures forall j :: 0 <= j < |messages| && (i < 0 || j < i) ==> !IsTitleSource(messages[j])
  {
    FindTitleSourceFrom(messages, 0)
  }

  /** The chat `appendMessages` writes back: the incoming messages follow the
      stored ones; the title is generated from the first incoming user message
      with visible content, and only while the chat has no user message. */
  function AppendedChat(existing: Chat, incoming: seq<Message>, now: int): (next: Chat)
    ensures next.id == existing.id && next.createdAt == existing.createdAt
    ensures next.updatedAt == now
    ensures next.messages == existing.messages + incoming
    ensures HasUserMessage(existing.messages) || FindTitleSource(incoming) < 0 ==>
      next.title == existing.title
    ensures !HasUserMessage(existing.messages) && FindTitleSource(incoming) >= 0 ==>
      next.title == GenerateTitle(incoming[FindTitleSource(incoming)].content)
  {
    var source := FindTitleSource(incoming);
    var title := if !HasUserMessage(existing.messages) && source >= 0
      then GenerateTitle(incoming[source].content)
      else existing.title;
    existing.(title := title, updatedAt := now, messages := existing.messages + incoming)
  }

  /** Once a title has been generated, later appends keep it. */
  lemma {:induction false} TitleIsGeneratedOnce(chat: Chat, first: seq<Message>, t1: int, later: seq<Message>, t2: int)
    requires FindTitleSource(first) >= 0
    ensures AppendedChat(AppendedChat(chat, first, t1), later, t2).title == AppendedChat(chat, first, t1).title
  {
    var next := AppendedChat(chat, first, t1);
    var i := FindTitleSource(first);
    assert next.messages[|chat.messages| + i] == first[i];
    assert HasUserMessage(next.messages);
  }

  /** The chat `setMessages` writes back: the message list replaced wholesale. */
  function ReplacedChat(existing: Chat, messages: seq<Message>, now: int): (next: Chat)
    ensures next.id == existing.id && next.title == existing.title && next.createdAt == existing.createdAt
    ensures next.updatedAt == now && next.messages == messages
  {
    existing.(updatedAt := now, messages := messages)
  }

  // ---- the repository over its two mutable tables ----

  class ChatRepository {
    var chatMemory: map<string, Chat>
    var chatIndex: map<string, ChatSummary>

    function State(): Store
      reads this
    {
      Store(chatMemory, chatIndex)
    }

    ghost predicate Valid()
      reads this
    {
      Consistent(State())
    }

    /** A repository opened over the two tables as they already are; their
        contents were written by earlier repositories, which keep them
        consistent. */
    constructor (initial: Store)
      requires Consistent(initial)
      ensures Valid() && State() == initial
    {
      chatMemory := initial.chatMemory;
      chatIndex := initial.chatIndex;
    }

    method GetChat(id: string) returns (r: Option<Chat>)
      ensures r == Lookup(State(), id)
      ensures Valid() && r.Some? ==> r.value.id == id
    {
      if ChatKey(id) in chatMemory {
        r := Some(chatMemory[ChatKey(id)]);
      } else {
        r := None;
      }
      if Valid() { LookupFindsId(State(), id); }
    }

    method UpsertChat(chat: Chat) returns (r: Chat)
      requires Valid()
      modifies this
      ensures Valid()
      ensures r == chat
      ensures State() == Upserted(old(State()), chat)
    {
      var existing := GetChat(chat.id);
      if existing.Some? {
        chatIndex := chatIndex - {IndexKey(existing.value.updatedAt, existing.value.id)};
      }
      chatMemory := chatMemory[ChatKey(chat.id) := chat];
      chatIndex := chatIndex[IndexKey(chat.updatedAt, chat.id) := ToSummary(chat)];
      UpsertedConsistent(old(State()), chat);
      r := chat;
    }

    method CreateChat(chat: Chat) returns (r: Chat)
      requires Valid()
      modifies this
      ensures Valid()
      ensures r == chat
      ensures State() == Upserted(old(State()), chat)
    {
      r := UpsertChat(chat);
    }

    method AppendMessages(chatId: string, messages: seq<Message>, now: int) returns (r: Option<Chat>)
      requires Valid()
      modifies this
      ensures Valid()
      ensures old(Lookup(State(), chatId)).None? ==> r == None && State() == old(State())
      ensures old(Lookup(State(), chatId)).Some? ==>
        && r == Some(AppendedChat(old(Lookup(State(), chatId)).value, messages, now))
        && r.value.id == chatId
        && State() == Upserted(old(State()), r.value)
    {
      var existing := GetChat(chatId);
      if existing.None? {
        return None;
      }
      var next := AppendedChat(existing.value, messages, now);
      var stored := UpsertChat(next);
      r := Some(stored);
    }

    method SetMessages(chatId: string, messages: seq<Message>, now: int) returns (r: Option<Chat>)
      requires Valid()
      modifies this
      ensures Valid()
      ensures old(Lookup(State(), chatId)).None? ==> r == None && State() == old(State())
      ensures old(Lookup(State(), chatId)).Some? ==>
        && r == Some(ReplacedChat(old(Lookup(State(), chatId)).value, messages, now))
        && r.value.id == chatId
        && State() == Upserted(old(State()), r.value)
    {
      var existing := GetChat(chatId);
      if existing.None? {
        return None;
      }
      var next := ReplacedChat(existing.value, messages, now);
      var stored := UpsertChat(next);
      r := Some(stored);
    }

    method DeleteChat(id: string) returns (deleted: bool)
      requires Valid()
      modifies this
      ensures Valid()
      ensures deleted <==> old(Lookup(State(), id)).Some?
      ensures State() == Deleted(old(State()), id)
    {
      var existing := GetChat(id);
      if existing.None? {
        return false;
      }
      chatMemory := chatMemory - {ChatKey(id)};
      chatIndex := chatIndex - {IndexKey(existing.value.updatedAt, existing.value.id)};
      DeletedConsistent(old(State()), id);
      deleted := true;
    }

    /** Reads the index only, in the order of its keys. */
    method ListChats() returns (rows: seq<ChatSummary>)
      ensures rows == Listing(chatIndex)
    {
      var keys := SortedKeys(chatIndex.Keys);
      rows := [];
      for i := 0 to |keys|
        invariant |rows| == i
        invariant forall j :: 0 <= j < i ==> rows[j] == chatIndex[keys[j]]
      {
        rows := rows + [chatIndex[keys[i]]];
      }
    }
  }
}
