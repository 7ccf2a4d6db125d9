# Memory layer of a local AI chat server, in Dafny

This project models the server-side memory of a local chat assistant that
talks to an Ollama model server. It covers five parts:

- **The chat repository.** A primary table `chat:<id>` → chat and a recency
  index `chat_index:<inverted updatedAt>:<id>` → summary. Every write keeps
  the two tables consistent, and listing reads only the index.
- **Chat titles.** The title is generated from the first user message.
- **The profile repository.** A lazily created `profile:default` singleton
  and a one-way migration flag `meta:migration:v1`.
- **The one-shot import** of conversations kept by the browser.
- **The prompt context.** The server route `/context/build` assembles the
  messages sent to the model from the profile and a stored chat.
- **The Ollama client's pure pieces.** The endpoint URL built from the
  configured base URL, and the splitting of the streamed reply into lines.

Modules, one concept each:

| module | file | what it holds |
|---|---|---|
| `Wrappers` | wrappers.dfy | `Option` |
| `Text` | text.dfy | JavaScript's `trim`, the `\s` class, `join`, `String(n)`, `padStart` |
| `KeyOrder` | key_order.dfy | the store's key order (code-point lexicographic) and the sorted key sequence the store iterator yields |
| `Types` | types.dfy | messages, chats, summaries, profiles |
| `ChatKeys` | chat_keys.dfy | `makeChatKey`, `invertTs`, `makeIndexKey`, `toSummary`, with their order and injectivity lemmas |
| `ChatTitle` | chat_title.dfy | `generateChatTitleFromMessage`, one character-level function per cleaning step |
| `ChatRepo` | chat_repo.dfy | the two tables as a `Store` value with its transitions and invariant, then the class `ChatRepository` over two mutable maps |
| `ProfileRepo` | profile_repo.dfy | the store transitions of the profile repository and the class `ProfileRepository` |
| `Migration` | migration.dfy | the `/migrate/local-storage` handler as a method over both repositories |
| `Context` | context.dfy | the `/context/build` handler |
| `Llm` | llm.dfy | `buildOllamaUrl` and the read loop of `streamChat` |

A state-changing operation is a method of a class. Its `ensures` ties the
new state to a pure transition of the old state, for example
`State() == Upserted(old(State()), chat)`. The lemmas beside the transition
prove what the source promises. The chat store's invariant is
`ChatRepo.Consistent`:

- every stored chat is filed under `chat:<its id>`;
- every stored chat has its row under its current index key, holding its
  summary;
- every index row belongs to a stored chat and sits under that chat's
  current key.

A repository opens over tables that already satisfy this invariant, as
tables written only through the repository do.

`Date.now()` is the parameter `now`. The key-value store is a `map`, and
its iterator yields the values in ascending key order.

Four behaviours of the code that are easy to get wrong:

- **Fallback title.** An empty cleaned message gets the Spanish fallback
  title `"Conversacion general"` (chat-repo.ts:31).
- **Short first sentence.** A first sentence of up to 60 characters is
  returned whole; the cut applies only above 60 characters
  (chat-repo.ts:36). `ChatTitle.PlainSentenceIsItsOwnTitle` states this
  for any clean sentence without a terminator of at most 60 characters.
- **Whitespace-only user message.** Such a message is not a title source
  (chat-repo.ts:84). The title then stays as it was; it does not become the
  fallback.
- **Blank base URL.** Only the empty string falls back to the default
  Ollama URL (llm.ts:26). A blank setting such as `" "` trims to nothing,
  and the URL becomes the bare path `/api/chat`.

## Model

| member | source | states |
|---|---|---|
| KeyOrder.SortedKeys | server/repositories/chat-repo.ts:120-126 | the keys of the index in strictly ascending order, each exactly once, nothing else: the order the store's iterator yields |
| ChatKeys.ChatKey | server/repositories/chat-repo.ts:3-5 | `chat:` followed by the id; `ChatKeys.ChatKeyInjective` states that distinct ids give distinct keys |
| ChatKeys.InvertTs | server/repositories/chat-repo.ts:7-9 | `String(9999999999999 - t)` padded with zeros to 13 characters; its value, width and order are stated by the three `InvertTs…` lemmas below |
| ChatKeys.IndexKey | server/repositories/chat-repo.ts:11-13 | `chat_index:`, the inverted timestamp, `:` and the id; its injectivity and order are stated by the four `IndexKey…` lemmas below |
| ChatKeys.ToSummary | server/repositories/chat-repo.ts:15-22 | the chat's id, title, createdAt and updatedAt; `ChatKeys.SummaryDropsOnlyMessages` states what it keeps |
| ChatKeys.SummaryDropsOnlyMessages | server/repositories/chat-repo.ts:15-22 | two chats have the same summary exactly when they differ at most in their messages |
| ChatKeys.ChatKeyInjective | server/repositories/chat-repo.ts:3-5 | distinct chat ids get distinct primary keys |
| ChatKeys.InvertTsIsDigits | server/repositories/chat-repo.ts:7-9 | for 0 ≤ t ≤ 9999999999999 the inverted field is the 13-digit zero-padded decimal of 9999999999999 − t |
| ChatKeys.InvertTsFixedWidth | server/repositories/chat-repo.ts:7-9 | inside that range the inverted field is exactly 13 characters, all digits |
| ChatKeys.InvertTsReversesOrder | server/repositories/chat-repo.ts:7-9 | for a < b in range, `invertTs(b)` sorts strictly before `invertTs(a)` |
| ChatKeys.IndexKeyDeterminesId | server/repositories/chat-repo.ts:11-13 | for every timestamp, equal index keys have equal ids and equal inverted fields (the field has no ':') |
| ChatKeys.IndexKeyInjective | server/repositories/chat-repo.ts:11-13 | in range, equal index keys have equal timestamps and equal ids |
| ChatKeys.IndexKeyOrder | server/repositories/chat-repo.ts:11-13 | in range, the key of the later `updatedAt` sorts first whatever the ids |
| ChatKeys.IndexKeyTieOrder | server/repositories/chat-repo.ts:11-13 | at equal timestamps index keys sort exactly as the ids do |
| ChatTitle.StripCodeFences | server/repositories/chat-repo.ts:26 | the lazy global fence removal, scanning left to right; stated by the two lemmas below |
| ChatTitle.StripCodeFencesNoFence | server/repositories/chat-repo.ts:26 | text without a ```` ``` ```` fence is left unchanged by the fence removal |
| ChatTitle.StripCodeFencesBlock | server/repositories/chat-repo.ts:26 | a leading fenced block, up to the nearest closing fence, becomes one space and the rest is processed on |
| ChatTitle.BlankMarkdown | server/repositories/chat-repo.ts:27 | same length; every markdown mark becomes a space; every other character is kept in place |
| ChatTitle.CollapseWhitespace | server/repositories/chat-repo.ts:28 | empty iff the input is; starts with a space iff the input starts with whitespace; the only whitespace left is single spaces; every other character comes from the input |
| ChatTitle.CollapseIsSqueeze | server/repositories/chat-repo.ts:28 | the collapse is the input with every whitespace character turned into a space and every run of spaces squeezed to one: the non-whitespace text survives in order, and one space stands wherever whitespace stood |
| ChatTitle.CollapseCleanText | server/repositories/chat-repo.ts:28 | text already single-spaced with no other whitespace is left unchanged |
| ChatTitle.Clean | server/repositories/chat-repo.ts:25-29 | the cleaned text has no marks, only single spaces as whitespace, and no space at either end; its visible characters (neither whitespace nor marks) are those of the fence-stripped content, in order |
| ChatTitle.BeforeTerminator | server/repositories/chat-repo.ts:33 | the longest prefix free of `. ! ? \n`; the character after it, if any, is a terminator |
| ChatTitle.FirstChunk | server/repositories/chat-repo.ts:33 | the trimmed text before the first terminator when that is non-empty, otherwise the whole cleaned text; non-empty for non-empty text |
| ChatTitle.LastSpace | server/repositories/chat-repo.ts:39 | the index of the last space, or -1 when there is none |
| ChatTitle.Shorten | server/repositories/chat-repo.ts:38-43 | the cut chunk is a prefix ending at the last space past position 20 within the first 60 characters (or at 60 when there is none), followed by "..." |
| ChatTitle.GenerateTitle | server/repositories/chat-repo.ts:24-44 | 1 to 63 characters; the fallback exactly when the cleaned text is empty; the first chunk verbatim when at most 60 characters; otherwise the shortened chunk |
| ChatTitle.TitleHasNoMarkdown | server/repositories/chat-repo.ts:24-44 | no title ever contains a markdown mark |
| ChatTitle.OnlyMarkupGivesFallback | server/repositories/chat-repo.ts:25-31 | content made only of marks and whitespace gets the fallback title |
| ChatTitle.PlainSentenceIsItsOwnTitle | server/repositories/chat-repo.ts:24-36 | a clean sentence of at most 60 characters without terminators or surrounding spaces is its own title |
| ChatRepo.Consistent | server/repositories/chat-repo.ts:66-75 | the store invariant described above; kept by `UpsertedConsistent` and `DeletedConsistent` |
| ChatRepo.Lookup | server/repositories/chat-repo.ts:58-64 | the chat filed under `chat:<id>`, or none; `ChatRepo.LookupFindsId` states that it carries the id |
| ChatRepo.Upserted | server/repositories/chat-repo.ts:66-75 | the old row removed, then the record and the new row written; stated by `UpsertedConsistent` and `UpsertedEffect` |
| ChatRepo.Deleted | server/repositories/chat-repo.ts:111-118 | the record and its row removed when present; stated by `DeletedConsistent` and `DeletedEffect` |
| ChatRepo.LookupFindsId | server/repositories/chat-repo.ts:58-64 | in a consistent store, the chat found for an id carries that id |
| ChatRepo.RowIsCurrent | server/repositories/chat-repo.ts:66-75 | every index row is the summary of the stored chat it names, under that chat's current key |
| ChatRepo.ExactlyOneRow | server/repositories/chat-repo.ts:66-75 | a stored chat has exactly one index row, keyed by its current `updatedAt`; an absent chat has none |
| ChatRepo.EmptyIndexIffNoChats | server/repositories/chat-repo.ts:120-126 | the index is empty exactly when no chat is stored |
| ChatRepo.UpsertedConsistent | server/repositories/chat-repo.ts:66-75 | an upsert keeps the store consistent |
| ChatRepo.UpsertedEffect | server/repositories/chat-repo.ts:66-75 | after an upsert the chat is stored; its only row is under its new key with its summary; the old row is gone; other chats keep their records and rows |
| ChatRepo.DeletedConsistent | server/repositories/chat-repo.ts:111-118 | a delete keeps the store consistent |
| ChatRepo.DeletedEffect | server/repositories/chat-repo.ts:111-118 | after a delete the chat and all its rows are gone; other chats keep their records and rows |
| ChatRepo.Listing | server/repositories/chat-repo.ts:120-126 | one row per index entry |
| ChatRepo.ListingRowsAreCurrent | server/repositories/chat-repo.ts:120-126 | every listed row is the current summary of a stored chat |
| ChatRepo.ListingCoversChats | server/repositories/chat-repo.ts:120-126 | every stored chat is listed |
| ChatRepo.ListingHasNoDuplicates | server/repositories/chat-repo.ts:120-126 | no chat is listed twice |
| ChatRepo.ListingIsByRecency | server/repositories/chat-repo.ts:120-126 | with timestamps in range, rows come by descending `updatedAt`, ties by ascending id |
| ChatRepo.MostRecentListedFirst | server/test/memory-api.test.ts:58-70 | the chat updated strictly after all others is listed first |
| ChatRepo.DeletedNotListed | server/test/memory-api.test.ts:72-75 | a deleted chat no longer appears in the listing |
| ChatRepo.FindTitleSource | server/repositories/chat-repo.ts:84 | the position of the first user message with non-blank content, or -1 when there is none |
| ChatRepo.AppendedChat | server/repositories/chat-repo.ts:83-93 | id and createdAt kept; updatedAt is now; messages are old then incoming; the title is generated from the first title source only when the chat had no user message, otherwise kept |
| ChatRepo.TitleIsGeneratedOnce | server/repositories/chat-repo.ts:83-90 | once an append has produced a title, later appends keep it |
| ChatRepo.ReplacedChat | server/repositories/chat-repo.ts:102-106 | the message list is replaced wholesale; id, title and createdAt kept; updatedAt is now |
| ChatRepo.ChatRepository.constructor | server/repositories/chat-repo.ts:46-57 | a repository opened over existing tables holds exactly them and is consistent, given tables that satisfy the store invariant |
| ChatRepo.ChatRepository.GetChat | server/repositories/chat-repo.ts:58-64 | the chat filed under the id, or none |
| ChatRepo.ChatRepository.UpsertChat | server/repositories/chat-repo.ts:66-75 | the new tables are the upsert transition of the old ones, consistency is kept, the chat is returned |
| ChatRepo.ChatRepository.CreateChat | server/repositories/chat-repo.ts:77 | the same as an upsert |
| ChatRepo.ChatRepository.AppendMessages | server/repositories/chat-repo.ts:79-96 | an absent id gives none and changes nothing; otherwise the appended chat is upserted and returned |
| ChatRepo.ChatRepository.SetMessages | server/repositories/chat-repo.ts:98-109 | an absent id gives none and changes nothing; otherwise the chat with its list replaced is upserted and returned |
| ChatRepo.ChatRepository.DeleteChat | server/repositories/chat-repo.ts:111-118 | true exactly when the chat was present; the tables become the delete transition of the old ones |
| ChatRepo.ChatRepository.ListChats | server/repositories/chat-repo.ts:120-126 | the rows pushed are the listing of the index |
| ProfileRepo.DefaultProfile | server/repositories/profile-repo.ts:12-17 | user "default", no traits, no facts, stamped now |
| ProfileRepo.StoredProfile | server/repositories/profile-repo.ts:19-24 | the record under `profile:default` when its user id is "default", otherwise none |
| ProfileRepo.MigrationDone | server/repositories/profile-repo.ts:45-52 | the flag record's `done`, false when absent or not a flag record |
| ProfileRepo.AfterProfileRead | server/repositories/profile-repo.ts:19-32 | the store after a read: written with the default only when no valid profile was there; stated by `ProfileReadPersists` and `SecondProfileReadAgrees` |
| ProfileRepo.UpdatedProfile | server/repositories/profile-repo.ts:35-40 | user "default" with the given traits and facts, stamped now |
| ProfileRepo.AfterUpdate | server/repositories/profile-repo.ts:34-43 | the store with the updated profile under `profile:default`; stated by `UpdateThenRead` |
| ProfileRepo.AfterMark | server/repositories/profile-repo.ts:54-56 | the store with `{done: true, now}` under `meta:migration:v1`; stated by `FlagIsLatch` |
| ProfileRepo.ProfileRead | server/repositories/profile-repo.ts:19-32 | always user "default"; a stored record with that user id is returned as it is; otherwise empty traits and facts stamped now |
| ProfileRepo.ProfileReadPersists | server/repositories/profile-repo.ts:19-32 | after a read the store holds exactly the profile returned |
| ProfileRepo.SecondProfileReadAgrees | server/repositories/profile-repo.ts:19-32 | a second read returns the same profile at any clock reading and writes nothing |
| ProfileRepo.UpdateThenRead | server/repositories/profile-repo.ts:34-43 | after an update the next read returns exactly the updated traits and facts (no merge) |
| ProfileRepo.FlagIsLatch | server/repositories/profile-repo.ts:45-56 | marking sets the flag; reading and updating the profile leave it as it was |
| ProfileRepo.WritesOnlyOwnKeys | server/repositories/profile-repo.ts:3-4 | every operation leaves all keys other than the two repository keys unchanged |
| ProfileRepo.ProfileRepository.constructor | server/repositories/profile-repo.ts:6-11 | the repository opens over the store as it is |
| ProfileRepo.ProfileRepository.GetProfile | server/repositories/profile-repo.ts:19-32 | returns the read profile; writes the default only when no valid profile was stored; the store then holds the profile returned |
| ProfileRepo.ProfileRepository.UpdateProfile | server/repositories/profile-repo.ts:34-43 | stores and returns user "default" with the given traits and facts |
| ProfileRepo.ProfileRepository.IsMigrationDone | server/repositories/profile-repo.ts:45-52 | the stored flag's `done`; false when the record is absent or not a flag record |
| ProfileRepo.ProfileRepository.MarkMigrationDone | server/repositories/profile-repo.ts:54-56 | writes the flag record; the flag then reads true |
| ProfileRepo.FreshProfileTwice | server/test/memory-api.test.ts:78-80 | two reads of a fresh store return the same default profile, created by the first |
| Migration.WellFormed | server/routes/migration.ts:4-15 | what validation accepts: non-empty id and title, a positive creation time, messages with non-empty ids from the user or the assistant |
| Migration.ImportedChat | server/routes/migration.ts:56-68 | the chat upserted for one conversation: its id, title and createdAt, updatedAt now, the re-timestamped messages |
| Migration.Imported | server/routes/migration.ts:55-69 | the store after upserting every conversation's chat in order; stated by the `Imported…` lemmas below |
| Migration.MigrationOutcome | server/routes/migration.ts:41-53 | rejected, already-migrated, db-not-empty or migrated, decided in that order; stated by `Migrate` and `MigrationIsOneShot` |
| Migration.ChatsAfterMigration | server/routes/migration.ts:48-69 | the chat store after a run: imported only when the outcome is migrated |
| Migration.FlagsAfterMigration | server/routes/migration.ts:42-71 | the profile store after a run: the flag written on db-not-empty and on import |
| Migration.Retimestamped | server/routes/migration.ts:62-67 | message i keeps id, role and content and gets `createdAt + i`, so time stamps strictly increase |
| Migration.ImportedConsistent | server/routes/migration.ts:55-69 | the import loop keeps the chat store consistent |
| Migration.ImportedLookup | server/routes/migration.ts:55-69 | after the import the chat of an id is the one imported from the last conversation with it; other ids keep their chats |
| Migration.ImportedDistinct | server/routes/migration.ts:55-69 | with pairwise different ids, each conversation becomes its own chat |
| Migration.ImportedKeys | server/routes/migration.ts:55-69 | into an empty store, the chats are filed under exactly the keys of the conversations' ids |
| Migration.ImportedCount | server/routes/migration.ts:55-72 | into an empty store, pairwise different ids give exactly one chat per conversation |
| Migration.MigrationIsOneShot | server/routes/migration.ts:42-53 | any run that passes validation leaves the flag set; every later valid run answers already-migrated and changes nothing |
| Migration.MigratedImportsAll | server/routes/migration.ts:55-72 | a successful run reports the number of conversations and stores the chat of every conversation |
| Migration.ImportAll | server/routes/migration.ts:55-69 | the loop's upserts leave the store as the import transition says |
| Migration.ImportAndMark | server/routes/migration.ts:55-71 | import, then set the flag |
| Migration.Migrate | server/routes/migration.ts:41-72 | rejected, already-migrated, db-not-empty or migrated, checked in that order; the chat store changes only on import; the flag is written on db-not-empty and on import and nowhere else |
| Migration.MigrateTwiceOnFresh | server/routes/migration.ts:42-72 | on fresh stores the first run imports every conversation and the second is refused |
| Context.ContextMessages | server/routes/context.ts:28-45 | the system part, the copied history and the new message, in that order; stated by `ContextLayout` |
| Context.BuildContextSpec | server/routes/context.ts:23-45 | not-found for a missing chat, otherwise the context messages; `BuildContext` is proved against it |
| Context.SummaryLines | server/routes/context.ts:28-31 | there is a line exactly when traits or facts are non-empty |
| Context.SummaryText | server/routes/context.ts:28-37 | the system text is "Traits: a, b" and/or "Facts: x, y", joined by a newline; an empty list gives no line |
| Context.ContextLayout | server/routes/context.ts:35-45 | length is [system] + history + [new]; the profile's system message first exactly when there are traits or facts; every stored message is copied in order with role and content; the new message last exactly when non-empty |
| Context.BuildContext | server/routes/context.ts:23-45 | a missing chat gives not-found; otherwise the messages pushed are the context layout above |
| Context.ProfileAndHistoryExample | server/test/memory-api.test.ts:91-117 | a profile with one trait and one fact, a history "Hola" and a new message give system, "Hola", new message |
| Context.EmptyProfileExample | server/routes/context.ts:35-41 | an empty profile adds no system message |
| Llm.NormalizedBase | src/lib/llm.ts:26 | the default for an empty setting, then trimmed, then without trailing slashes; stated by `TrailingSlashIgnored`, `PlainBase`, `EmptyBaseUsesDefault` and `BlankBaseGivesBarePath` |
| Llm.StripTrailingSlashes | src/lib/llm.ts:26 | a prefix of the input with no trailing '/', only slashes removed |
| Llm.UrlFrom | src/lib/llm.ts:30-37 | the URL ends with the endpoint's full path |
| Llm.BuildOllamaUrl | src/lib/llm.ts:25-38 | the URL ends with `/api/tags` or `/api/chat`, according to the endpoint |
| Llm.UrlShape | src/lib/llm.ts:25-38 | the URL is the normalised base with one trailing `/api` or `/v1` removed, followed by the full endpoint path |
| Llm.TrailingSlashIgnored | src/lib/llm.ts:26 | a trailing slash on a trimmed, non-empty setting makes no difference |
| Llm.PlainBase | src/lib/llm.ts:26 | a setting without surrounding whitespace or a trailing slash is used as it is |
| Llm.EmptyBaseUsesDefault | src/lib/llm.ts:20-26 | an empty setting gives `http://localhost:11434` followed by the endpoint path |
| Llm.BlankBaseGivesBarePath | src/lib/llm.ts:26 | a blank setting gives the bare `/api/chat` |
| Llm.ApiSuffixKept | src/lib/llm.ts:30-32 | a base ending in `/api/` gets one `/api`, not two |
| Llm.V1SuffixDropped | src/lib/llm.ts:33-35 | a base ending in `/v1` loses those three characters before the endpoint path |
| Llm.ApiV1GetsSecondApi | src/lib/llm.ts:30-35 | a base ending in `/api/v1` gives `…/api/api/chat` |
| Llm.SplitLines | src/lib/llm.ts:140-141 | the lines, each followed by a newline, then the kept tail, join back to the buffer; no line and no tail holds a newline |
| Llm.SplitLinesUnique | src/lib/llm.ts:140-141 | that split is the only one: newline-free lines and tail that join to the buffer are its split |
| Llm.HandOn | src/lib/llm.ts:143-144 | the lines handed to the parser are the non-blank ones, in order |
| Llm.NonBlank | src/lib/llm.ts:143-144 | the lines whose trimmed text is non-empty, in order; `HandOn` and `ReadStream` are proved against it |
| Llm.ReadStream | src/lib/llm.ts:135-158 | after all chunks, the parser has been handed the non-blank complete lines of the whole text, and the buffer holds its unterminated tail |
| Llm.ReadStreamIgnoresChunking | src/lib/llm.ts:135-158 | two ways of cutting the same text into chunks hand the parser the same lines and leave the same buffer |

## Left out

- The HTTP layer is not modelled: Express routing, status codes, JSON bodies, the error handler, and the React UI and its HTTP client.
- Migration.Migrate: request validation is the predicate `WellFormed` plus the outcome `Rejected`; the rest of the request schema is not modelled.
- The store is a `map`. LevelDB, its encoding and its asynchronous iterator are not modelled. The iterator is the ascending key order of `KeyOrder`, comparing code points.
- ChatRepo.ChatRepository.UpsertChat: each repository call is sequential and atomic. The swallowed failure of an index delete and the windows between the two writes are not modelled.
- ChatRepo.ChatRepository.DeleteChat: the same atomicity assumption as for upserts.
- ProfileRepo.ProfileRepository.GetProfile: a read that throws is modelled as an absent key. A stored value of another shape is the record `OtherRec`.
- ProfileRepo.ProfileRepository.IsMigrationDone: JavaScript's truthiness of `done` on arbitrary values is reduced to a boolean field of the flag record.
- Migration.Migrate: all `Date.now()` readings of one call are the single parameter `now`, so every imported chat gets the same `updatedAt`. Clock monotonicity is not modelled.
- Context.BuildContext: the profile is a parameter. The lazy write that `getProfile` performs before assembly is modelled in `ProfileRepo` and is not repeated here.
- CollapseWhitespace: its own contract gives only the shape of the result. The exact result is stated by `ChatTitle.CollapseIsSqueeze`; as a postcondition of the function it made the proofs that use the function too costly.
- Tables written by anything other than the repository are not modelled: `ChatRepository` opens only over tables that satisfy the store invariant.
- ChatTitle.GenerateTitle: lengths count Unicode code points, while JavaScript counts UTF-16 code units. The two differ only for characters outside the Basic Multilingual Plane.
- ChatTitle.GenerateTitle: the regular expressions are explicit character-level functions. `\s` is the whitespace set of ECMA-262.
- Llm.BuildOllamaUrl: the comment in the source says `/api/api/chat` is prevented. This holds when the base itself ends in `/api`. A base ending in `/api/v1` still yields `/api/api/chat` (`Llm.ApiV1GetsSecondApi`).
- Llm.ReadStream: the byte decoding of each chunk is not modelled; chunks are already strings. Also left out: the JSON parsing of each line, the callbacks and the early return on a `done` message.
- Llm.ReadStream: the 404 model-recovery request and the error reporting of `streamChat` are network I/O and are not modelled.
- `fetchModels`, `getLLMConfig`, `saveLLMConfig` and `generateId` are left out. The first calls the network, the next two use browser storage, and the last uses a clock and a global counter.
- The server bootstrap, the database opening and the health route are left out.
- The create route always passes `updatedAt = createdAt` and an empty message list (server/routes/chats.ts:61-65). `CreateChat` accepts any chat, so that case is included.
