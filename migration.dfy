/**
  The one-shot import of conversations kept by the browser into the chat
  store (the `/migrate/local-storage` handler). The request is validated
  first; then, in order: a set migration flag stops everything, a non-empty
  chat store only sets the flag, and otherwise every conversation is
  upserted with its messages re-timestamped and the flag is set.
*/
module Migration {
  import opened Types
  import opened ChatKeys
  import opened ChatRepo
  import opened ProfileRepo
  import opened Wrappers

  datatype LegacyMessage = LegacyMessage(id: string, role: Role, content: string)

  datatype LegacyConversation = LegacyConversation(id: string, title: string, createdAt: int, messages: seq<LegacyMessage>)

  /** The answer of the handler; `Rejected` is the validation error passed on
      to the error handler. */
  datatype Outcome =
    | Rejected
    | AlreadyMigrated
    | DbNotEmpty
    | Migrated(importedChats: nat)

  /** What request validation accepts: non-empty ids and titles, a positive
      creation time, and messages from the user or the assistant only. */
  predicate WellFormedMessage(m: LegacyMessage)
  {
    |m.id| >= 1 && m.role != System
  }

  predicate WellFormed(conv: LegacyConversation)
  {
    && |conv.id| >= 1
    && |conv.title| >= 1
    && conv.createdAt > 0
    && forall i :: 0 <= i < |conv.messages| ==> WellFormedMessage(conv.messages[i])
  }

  predicate AllWellFormed(convs: seq<LegacyConversation>)
  {
    forall i :: 0 <= i < |convs| ==> WellFormed(convs[i])
  }

  /** Message `i` keeps its id, role and content and gets time stamp
      `base + i`, so time stamps strictly increase along the chat. */
  function Retimestamped(msgs: seq<LegacyMessage>, base: int): (r: seq<Message>)
    ensures |r| == |msgs|
    ensures forall i :: 0 <= i < |r| ==>
      r[i].id == msgs[i].id && r[i].role == msgs[i].role && r[i].content == msgs[i].content
    ensures forall i :: 0 <= i < |r| ==> r[i].ts == base + i
    ensures forall i, j :: 0 <= i < j < |r| ==> r[i].ts < r[j].ts
  {
    seq(|msgs|, i requires 0 <= i < |msgs| => Message(msgs[i].id, msgs[i].role, msgs[i].content, base + i))
  }

  /** The chat written for one conversation. */
  function ImportedChat(conv: LegacyConversation, now: int): Chat
  {
    Chat(conv.id, conv.title, conv.createdAt, now, Retimestamped(conv.messages, conv.createdAt))
  }

  /** The store after upserting the chats of `convs`, in order. */
  function Imported(s: Store, convs: seq<LegacyConversation>, now: int): Store
    decreases |convs|
  {
    if convs == [] then s
    else Upserted(Imported(s, convs[..|convs| - 1], now), ImportedChat(convs[|convs| - 1], now))
  }

  /** The last conversation in `convs` with the given id. */
  function LastWithId(convs: seq<LegacyConversation>, id: string): (r: Option<LegacyConversation>)
    ensures r.Some? ==> r.value in convs && r.value.id == id
    ensures r.None? ==> forall i :: 0 <= i < |convs| ==> convs[i].id != id
    decreases |convs|
  {
    if convs == [] then None
    else if convs[|convs| - 1].id == id then Some(convs[|convs| - 1])
    else LastWithId(convs[..|convs| - 1], id)
  }

  /** The ids in `convs` are pairwise different. */
  predicate DistinctIds(convs: seq<LegacyConversation>)
  {
    forall i, j :: 0 <= i < j < |convs| ==> convs[i].id != convs[j].id
  }

  // ---- the import loop ----

  lemma {:induction false} ImportedConsistent(s: Store, convs: seq<LegacyConversation>, now: int)
    requires Consistent(s)
    ensures Consistent(Imported(s, convs, now))
    decreases |convs|
  {
    if convs != [] {
      ImportedConsistent(s, convs[..|convs| - 1], now);
      UpsertedConsistent(Imported(s, convs[..|convs| - 1], now), ImportedChat(convs[|convs| - 1], now));
    }
  }

  /** After the import, the chat of an id is the one imported from the last
      conversation carrying it; chats of other ids are untouched. */
  lemma {:induction false} ImportedLookup(s: Store, convs: seq<LegacyConversation>, now: int, id: string)
    requires Consistent(s)
    ensures Lookup(Imported(s, convs, now), id) ==
      match LastWithId(convs, id)
      case Some(conv) => Some(ImportedChat(conv, now))
      case None => Lookup(s, id)
    decreases |convs|
  {
    if convs != [] {
      var init := convs[..|convs| - 1];
      ImportedLookup(s, init, now, id);
      ImportedConsistent(s, init, now);
      UpsertedEffect(Imported(s, init, now), ImportedChat(convs[|convs| - 1], now));
    }
  }

  /** With pairwise different ids, each conversation becomes exactly its own
      chat. */
  lemma ImportedDistinct(s: Store, convs: seq<LegacyConversation>, now: int, i: nat)
    requires Consistent(s) && DistinctIds(convs) && i < |convs|
    ensures Lookup(Imported(s, convs, now), convs[i].id) == Some(ImportedChat(convs[i], now))
  {
    ImportedLookup(s, convs, now, convs[i].id);
    var last := LastWithId(convs, convs[i].id);
    var j :| 0 <= j < |convs| && convs[j] == last.value;
  }

  /** The keys under which the chats of `convs` are filed. */
  ghost function KeysOf(convs: seq<LegacyConversation>): set<string>
  {
    set i | 0 <= i < |convs| :: ChatKey(convs[i].id)
  }

  lemma KeysOfSnoc(convs: seq<LegacyConversation>)
    requires convs != []
    ensures KeysOf(convs) == KeysOf(convs[..|convs| - 1]) + {ChatKey(convs[|convs| - 1].id)}
  {
    var init := convs[..|convs| - 1];
    forall k | k in KeysOf(convs) ensures k in KeysOf(init) + {ChatKey(convs[|convs| - 1].id)} {
      var i :| 0 <= i < |convs| && k == ChatKey(convs[i].id);
      if i < |init| {
        assert convs[i] == init[i];
      }
    }
    forall k | k in KeysOf(init) ensures k in KeysOf(convs) {
      var i :| 0 <= i < |init| && k == ChatKey(init[i].id);
      assert convs[i] == init[i];
    }
  }

  /** Into an empty store, the import files a chat under the key of each
      conversation's id and nothing else. */
  lemma {:induction false} ImportedKeys(convs: seq<LegacyConversation>, now: int)
    ensures Imported(Store(map[], map[]), convs, now).chatMemory.Keys == KeysOf(convs)
    decreases |convs|
  {
    if convs != [] {
      ImportedKeys(convs[..|convs| - 1], now);
      KeysOfSnoc(convs);
    }
  }

  /** Into an empty store, pairwise different ids give one chat per conversation. */
  lemma {:induction false} ImportedCount(convs: seq<LegacyConversation>, now: int)
    requires DistinctIds(convs)
    ensures |Imported(Store(map[], map[]), convs, now).chatMemory| == |convs|
    decreases |convs|
  {
    if convs != [] {
      var init := convs[..|convs| - 1];
      var last := convs[|convs| - 1];
      assert DistinctIds(init);
      ImportedCount(init, now);
      ImportedKeys(init, now);
      forall i | 0 <= i < |init| ensures ChatKey(init[i].id) != ChatKey(last.id) {
        assert init[i].id == convs[i].id;
        ChatKeyInjective(last.id, init[i].id);
      }
      assert ChatKey(last.id) !in KeysOf(init);
    }
  }

  // ---- the handler as a whole ----

  function MigrationOutcome(s: Store, db: Db, convs: seq<LegacyConversation>): Outcome
  {
    if !AllWellFormed(convs) then Rejected
    else if MigrationDone(db) then AlreadyMigrated
    else if |s.chatIndex| > 0 then DbNotEmpty
    else Migrated(|convs|)
  }

  function ChatsAfterMigration(s: Store, db: Db, convs: seq<LegacyConversation>, now: int): Store
  {
    if MigrationOutcome(s, db, convs).Migrated? then Imported(s, convs, now) else s
  }

  function FlagsAfterMigration(s: Store, db: Db, convs: seq<LegacyConversation>, now: int): Db
  {
    var outcome := MigrationOutcome(s, db, convs);
    if outcome.Rejected? || outcome.AlreadyMigrated? then db else AfterMark(db, now)
  }

  /** A run that gets past validation leaves the flag set, so every later
      valid run answers `already_migrated` and changes nothing. */
  lemma MigrationIsOneShot(s: Store, db: Db, convs: seq<LegacyConversation>, now: int,
                           later: seq<LegacyConversation>, laterNow: int)
    requires AllWellFormed(convs) && AllWellFormed(later)
    ensures var s1 := ChatsAfterMigration(s, db, convs, now);
      var db1 := FlagsAfterMigration(s, db, convs, now);
      && MigrationDone(db1)
      && MigrationOutcome(s1, db1, later) == AlreadyMigrated
      && ChatsAfterMigration(s1, db1, later, laterNow) == s1
      && FlagsAfterMigration(s1, db1, later, laterNow) == db1
  {
  }

  /** A successful import reports the number of conversations and stores the
      re-timestamped chat of every conversation (the last one wins when ids
      repeat); a store that was not empty is left as it was. */
  lemma MigratedImportsAll(s: Store, db: Db, convs: seq<LegacyConversation>, now: int, i: nat)
    requires Consistent(s) && i < |convs|
    requires MigrationOutcome(s, db, convs).Migrated?
    ensures MigrationOutcome(s, db, convs).importedChats == |convs|
    ensures var chat := Lookup(ChatsAfterMigration(s, db, convs, now), convs[i].id);
      && chat.Some?
      && chat == Some(ImportedChat(LastWithId(convs, convs[i].id).value, now))
  {
    ImportedLookup(s, convs, now, convs[i].id);
  }

  lemma ImportedStep(s: Store, convs: seq<LegacyConversation>, i: nat, now: int)
    requires i < |convs|
    ensures Imported(s, convs[..i + 1], now) == Upserted(Imported(s, convs[..i], now), ImportedChat(convs[i], now))
  {
    assert convs[..i + 1][..i] == convs[..i];
  }

  /** The import loop: upsert one conversation at a time. */
  method ImportAll(chats: ChatRepository, convs: seq<LegacyConversation>, now: int)
    requires chats.Valid()
    modifies chats
    ensures chats.Valid()
    ensures chats.State() == Imported(old(chats.State()), convs, now)
  {
    var i := 0;
    while i < |convs|
      invariant 0 <= i <= |convs|
      invariant chats.Valid()
      invariant chats.State() == Imported(old(chats.State()), convs[..i], now)
    {
      var conv := convs[i];
      var chat := Chat(conv.id, conv.title, conv.createdAt, now, Retimestamped(conv.messages, conv.createdAt));
      var _ := chats.UpsertChat(chat);
      ImportedStep(old(chats.State()), convs, i, now);
      i := i + 1;
    }
    assert convs[..|convs|] == convs;
  }

  /** The last step of a first run on an empty store: import, then set the flag. */
  method ImportAndMark(chats: ChatRepository, profiles: ProfileRepository, convs: seq<LegacyConversation>, now: int)
    requires chats.Valid()
    modifies chats, profiles
    ensures chats.Valid()
    ensures chats.State() == Imported(old(chats.State()), convs, now)
    ensures profiles.db == AfterMark(old(profiles.db), now)
  {
    ImportAll(chats, convs, now);
    profiles.MarkMigrationDone(now);
  }

  /** Performs the handler on the two repositories. */
  method Migrate(chats: ChatRepository, profiles: ProfileRepository, convs: seq<LegacyConversation>, now: int)
    returns (outcome: Outcome)
    requires chats.Valid()
    modifies chats, profiles
    ensures chats.Valid()
    ensures outcome == MigrationOutcome(old(chats.State()), old(profiles.db), convs)
    ensures chats.State() == ChatsAfterMigration(old(chats.State()), old(profiles.db), convs, now)
    ensures outcome.Rejected? || outcome.AlreadyMigrated? ==> profiles.db == old(profiles.db)
    ensures outcome.DbNotEmpty? || outcome.Migrated? ==> profiles.db == AfterMark(old(profiles.db), now)
  {
    if !AllWellFormed(convs) {
      return Rejected;
    }
    var alreadyDone := profiles.IsMigrationDone();
    if alreadyDone {
      return AlreadyMigrated;
    }
    var existing := chats.ListChats();
    if |existing| > 0 {
      profiles.MarkMigrationDone(now);
      return DbNotEmpty;
    }
    ImportAndMark(chats, profiles, convs, now);
    outcome := Migrated(|convs|);
  }

  /** Two runs against fresh stores: the first imports everything, the second
      is refused. */
  method MigrateTwiceOnFresh(convs: seq<LegacyConversation>, t1: int, t2: int)
    returns (first: Outcome, second: Outcome)
    requires AllWellFormed(convs)
    ensures first == Migrated(|convs|)
    ensures second == AlreadyMigrated
  {
    var chats := new ChatRepository(Store(map[], map[]));
    var profiles := new ProfileRepository(map[]);
    first := Migrate(chats, profiles, convs, t1);
    second := Migrate(chats, profiles, convs, t2);
  }
}
