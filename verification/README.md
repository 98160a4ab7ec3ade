# Feature Bacon: a verified model

Feature Bacon is a feature-flag and experiment service. This project models the
parts of it whose correctness spans many functions, and proves what they promise:

- **JSON in the Java SDK.** A hand-written printer (`JsonPrinter`, class `JsonHelper.Writer`) and
  recursive-descent parser (`JsonReader`, class `JsonHelper.Parser`) over UTF-16 text. The classes move a
  cursor and append to a buffer as the Java code does, and are proved equal to the functions. Every text that
  the grammar of RFC 8259 derives (`JsonGrammar`) is read as what it means, or throws exactly if an integer in
  it is too long for 64 bits (`JsonConformance`); what is printed is derived by that grammar
  (`JsonRoundTrip`), and the round trips follow (`JsonTheorems`, `JsonReprint`). `JsonStrings` says exactly
  which texts are accepted as strings.
- **The Redis store.** A multi-tenant database kept in one string-keyed space with hand-maintained index
  sets, expiries and pages. The class `RedisStore.Store` is proved equal to functions of the flat key
  space (`FlatStore`), and those to refine plain per-tenant maps when tenant and subject ids have no colon
  (`TenantStore`, `Refinement`, `Reachable`, `Isolation`). All else holds for subjects of any shape, and the
  exact conditions on tenant ids are proved: for isolation (`KeyConflicts`, `Interference`, `Disturbance`), for
  index sets that list exactly what is stored (`IndexCoherence`, `ListedPages`), and for API keys that are found
  by their hash, at once (`FreshKeys`) and after any later calls (`ApiKeys`, `LostKeys`). What is read after
  any run is what was written, field by field (`ReadYourWrites`, `ReadYourKeys`).
- **The evaluation engine.** First-match rules, bucketed rollout and stored assignments on top of that same
  store (`Rules`, `RuleLists`, `Evaluation`, `Engine`), with what each condition asks (`Conditions`), why each
  answer is given (`Answers`), and stickiness over runs (`Stickiness`), under interleaving (`Interleaving`), and
  within batches (`BatchOrder`), all of them for ids of any shape.
  `SubjectKeys` and `SharedAnswers` say exactly when two subjects share one stored answer, and `OwnRecords`
  which tenants keep their flags and experiments under their own keys.
- **Smaller machines.** The semver matcher (`Semver`), pagination in 32-bit arithmetic (`Pagination`), the
  fuzzy search and the HTML escaper of the samples (`Search`, `EscapeHtml`), the experiment lifecycle
  as whole requests, as interleaved reads and writes, and with several tenants (`Lifecycle`,
  `LifecycleSchedules`, `LifecycleTenants`), and the fan-out publisher (`Fanout`).

A method is specified by a function of its inputs or of the old state; what the source promises is proved
about that function. What the code takes from outside becomes a parameter: the clock, the outcome of a
remote call, random draws, the hash behind `Bucket`, `fmt`'s `%v`, regular expressions, `toLowerCase`,
`toString`, and Java's character tables beyond ASCII.

`dafny verify dfyconfig.toml` checks everything.

## Where the code does not do what one would expect

Each of these is proved, with the exact condition under which the code does, and mostly with an input that shows
it.

- The JSON parser wraps what it reads, and the writer does not know the wrappers: an object that was parsed
  survives being printed and parsed again exactly when it is flat and has no infinite double
  (`JsonReprint.ReprintedExactlyWhen`, `JsonReprint.NestedObjectIsLost`, `JsonReprint.InfinityIsNotRead`).
- A JSON text with an integer beyond 64 bits is not read at all (`JsonConformance.ReadTree`).
- A JSON string needs no closing quote, only good escapes (`JsonStrings.AcceptedExactlyWhen`,
  `JsonStrings.UnterminatedStringAccepted`).
- Pages far past the end can overflow 32 bits, and then panic or repeat the first page
  (`Pagination.PanicsExactlyWhen`, `Pagination.CorrectExactlyWhen`, `Pagination.FarPagePanics`,
  `Pagination.FarPageRepeatsFirst`).
- Tenants whose ids have colons, or that are named after the hash index, can change each other's answers
  (`Disturbance.DisturbsExactlyWhen`, `Disturbance.IsolatedExactlyWhen`, `Isolation.ColonTenantLeaks`) and may
  not find their own keys (`FreshKeys.EveryKeyFoundExactlyWhen`, `FreshKeys.ColonTenantLosesKeys`).
- Tenants of such ids can also put records among those of another that the other one's index does not list
  (`IndexCoherence.IndexBreaksExactlyWhen`, `IndexCoherence.ColonTenantHidesFlag`), or keep its API keys from
  being found by their hash (`LostKeys.KeyIsLostExactlyWhen`).
- Two subjects of one tenant are given one and the same stored answer when subject, colon and flag key join to
  one text (`SharedAnswers.SaveReachesExactly`, `SharedAnswers.ColonSubjectIsGivenAnothersAnswer`). That
  takes a colon in a flag key, so subjects such as `user:42` are safe with plain flag keys
  (`SubjectKeys.PlainFlagsKeepApart`).
- The API-key index stays coherent exactly when id and hash are both fresh or both of one key
  (`ApiKeys.CreationKeepsCoherenceExactlyWhen`); the HTTP handler sends an empty id
  (`ApiKeys.EmptyIdsOverwrite`), and what a lookup gives when ids or hashes are used again is
  `ApiKeys.LookupGivesLast` and `ApiKeys.LookupByHashExactlyWhen`.
- A stored assignment does not always survive a failed read (`Stickiness.StoredAnswerSurvivesExactlyWhen`,
  `SharedAnswers.AnswerFlips`).
- Deleting a rule that an earlier one covers can change a random flag
  (`RuleLists.RandomDeletionMattersExactlyWhen`, `RuleLists.CoveredRuleOfRandomFlagMatters`).
- An experiment created or replaced over HTTP has no status and can never be started
  (`Lifecycle.CreatedOverHttpIsStuck`, `Lifecycle.PutErasesStatus`), and a completed one can be revived by a
  handler that had read it before (`LifecycleSchedules.CompletedStaysExactlyWhen`,
  `Lifecycle.InterleavedPauseRevivesCompleted`), or through a tenant whose id is another one's with
  `:experiments` behind it (`LifecycleTenants.LifecycleBreaksExactlyWhen`).

## Model

| member | source | states |
|---|---|---|
| JsonHelper.Writer.WriteValue | sdks/java/src/main/java/io/featurebacon/JsonHelper.java:25-39 | Appends exactly the printed form of the value, keeping what was there; a double goes in as its toString, and an object that is no Map or List, a JsonObject or JsonArray included, as the quoted text of its toString |
| JsonHelper.Writer.WriteString | sdks/java/src/main/java/io/featurebacon/JsonHelper.java:41-62 | Appends the quoted, escaped form of the string |
| JsonHelper.Writer.WriteMap | sdks/java/src/main/java/io/featurebacon/JsonHelper.java:64-75 | Appends the fields in order, commas between them only |
| JsonHelper.Writer.WriteList | sdks/java/src/main/java/io/featurebacon/JsonHelper.java:77-84 | Appends the items in order, commas between them only |
| JsonHelper.ToJsonText | sdks/java/src/main/java/io/featurebacon/JsonHelper.java:18-23 | The whole text is the printed form of the map |
| JsonHelper.Parser.SkipWhitespace | sdks/java/src/main/java/io/featurebacon/JsonHelper.java:299-301 | Moves to the first character that is not white space |
| JsonHelper.Parser.Expect | sdks/java/src/main/java/io/featurebacon/JsonHelper.java:307-313 | Consumes the expected character after white space, or throws at the position where it is missing |
| JsonHelper.Parser.ParseValue | sdks/java/src/main/java/io/featurebacon/JsonHelper.java:172-184 | On every text and position, value, final position and exception are those of the reading function; the position stays within the text and the recursion terminates |
| JsonHelper.Parser.ParseMember | sdks/java/src/main/java/io/featurebacon/JsonHelper.java:192-197 | One turn of the loop of parseObj reads key, colon and value as specified, or throws what they throw |
| JsonHelper.Parser.ParseObj | sdks/java/src/main/java/io/featurebacon/JsonHelper.java:186-203 | The loop that fills the map agrees with the recursive reading of members |
| JsonHelper.Parser.ParseArr | sdks/java/src/main/java/io/featurebacon/JsonHelper.java:205-217 | The loop that fills the list agrees with the recursive reading of elements |
| JsonHelper.Parser.ParseStr | sdks/java/src/main/java/io/featurebacon/JsonHelper.java:219-249 | Unescaped text, final position and exceptions of reading a string, including a string the input does not close |
| JsonHelper.Parser.ParseNumber | sdks/java/src/main/java/io/featurebacon/JsonHelper.java:262-274 | Which texts become an Integer, a Long or a Double, and which throw: value, position and exception are those of the reading function, whose boxes JsonTheorems.ValueBuilt describes |
| JsonHelper.Parser.ParseBool | sdks/java/src/main/java/io/featurebacon/JsonHelper.java:251-255 | true and false are recognised, anything else throws |
| JsonHelper.Parser.ParseNull | sdks/java/src/main/java/io/featurebacon/JsonHelper.java:257-260 | null is recognised, anything else throws |
| JsonHelper.Parser.ConsumeFraction | sdks/java/src/main/java/io/featurebacon/JsonHelper.java:280-287 | Moves past a fraction if there is one and says whether it did |
| JsonHelper.Parser.ConsumeExponent | sdks/java/src/main/java/io/featurebacon/JsonHelper.java:289-297 | Moves past an exponent if there is one and says whether it did |
| JsonHelper.ParseObjectText | sdks/java/src/main/java/io/featurebacon/JsonHelper.java:88-96 | Null, blank and non-object inputs give the empty object; errors are passed on |
| JsonHelper.ParseArrayText | sdks/java/src/main/java/io/featurebacon/JsonHelper.java:98-106 | Likewise for lists |
| JsonReader.Reader.ParseValue | sdks/java/src/main/java/io/featurebacon/JsonHelper.java:172-184 | Totality: every input gives an exception or a value and a position no further than the end of the text, and only the null read at the end of the input takes no characters |
| JsonReader.Reader.ParseMembers | sdks/java/src/main/java/io/featurebacon/JsonHelper.java:192-202 | A successful reading of members yields an object and has moved forward, within the text |
| JsonReader.Reader.ParseElements | sdks/java/src/main/java/io/featurebacon/JsonHelper.java:210-216 | A successful reading of elements yields a list and has moved forward, within the text |
| JsonConformance.ReadHexDigits | sdks/java/src/main/java/io/featurebacon/JsonHelper.java:237-240 | Integer.parseInt reads any four hexadecimal digits, of either case, as the character they stand for |
| JsonConformance.ScanChars | sdks/java/src/main/java/io/featurebacon/JsonHelper.java:219-249 | The characters of a string of RFC 8259, section 7, raw or escaped in any way, are read as what they mean, up to and including the closing quote |
| JsonConformance.ReadNumeral | sdks/java/src/main/java/io/featurebacon/JsonHelper.java:262-297 | Every number of section 6 is read whole: an integer of 32 bits as an Integer, a longer one of 64 bits as a Long, one that does not fit as a NumberFormatException, any other as the text that Double.parseDouble is given |
| JsonConformance.ReadElements | sdks/java/src/main/java/io/featurebacon/JsonHelper.java:205-217 | Elements with commas and white space between them are read one by one into the list, up to the first with an integer that does not fit, which throws |
| JsonConformance.ReadMembers | sdks/java/src/main/java/io/featurebacon/JsonHelper.java:186-203 | Members are read in order into the map, likewise; a repeated name keeps its place and takes its last value |
| JsonConformance.ReadTree | sdks/java/src/main/java/io/featurebacon/JsonHelper.java:172-297 | Conformance: wherever in a text a derivation of the grammar of RFC 8259 stands, and no number continues, parsing gives its meaning and stops exactly at its end if every integer in it fits 64 bits, and throws a NumberFormatException if one does not |
| JsonConformance.ReadContainer | sdks/java/src/main/java/io/featurebacon/JsonHelper.java:186-217 | The same for objects and arrays, whatever follows them |
| JsonStrings.AcceptedExactlyWhen | sdks/java/src/main/java/io/featurebacon/JsonHelper.java:219-249 | At every position of every text: a string is accepted if and only if each \u escape before its closing quote has four characters that parseInt takes; reading ends behind the first quote that is not escaped, or at the end of the text |
| JsonStrings.UnclosedExactlyWhen | sdks/java/src/main/java/io/featurebacon/JsonHelper.java:222-248 | An accepted string ends behind a closing quote if and only if the text has one, and else at the end of the text |
| JsonStrings.UnterminatedStringAccepted | sdks/java/src/main/java/io/featurebacon/JsonHelper.java:219-249 | For instance, a quote and any text without quotes and backslashes is read as a string up to the end |
| JsonRoundTrip.EscapedMeans | sdks/java/src/main/java/io/featurebacon/JsonHelper.java:41-62 | An escaped text is derived by the grammar and means the text itself, for every sequence of 16-bit characters |
| JsonRoundTrip.TreeMeans | sdks/java/src/main/java/io/featurebacon/JsonHelper.java:25-84 | What is printed for a value is derived by the grammar and means the value as it is read back |
| JsonRoundTrip.ReadsPrinted | sdks/java/src/main/java/io/featurebacon/JsonHelper.java:25-84 | Round trip: at any place in any text where a representable value is printed and no number continues, parsing yields the value as read back (maps and lists wrapped, integers in the smallest box, other objects as their strings) and moves by exactly the printed length |
| JsonTheorems.ParseObjectUndoesToJson | sdks/java/src/main/java/io/featurebacon/JsonHelper.java:18-96 | parseObject after toJson gives every representable map, as read back: the same names in the same order with the same numbers, texts and words at any depth, and an Integer exactly for the integers of 32 bits |
| JsonTheorems.ParseArrayUndoesPrint | sdks/java/src/main/java/io/featurebacon/JsonHelper.java:25-106 | parseArray reads back every printed list, likewise |
| JsonTheorems.PrintIsInjective | sdks/java/src/main/java/io/featurebacon/JsonHelper.java:25-84 | Two values with one printed form are the same once read back |
| JsonTheorems.PrintedStringConforms | sdks/java/src/main/java/io/featurebacon/JsonHelper.java:41-62 | A printed string obeys the grammar of section 7 of RFC 8259 |
| JsonTheorems.PrintedValueConforms | sdks/java/src/main/java/io/featurebacon/JsonHelper.java:25-84 | Every printed representable value is a text of RFC 8259 |
| JsonTheorems.ParseObjectReads | sdks/java/src/main/java/io/featurebacon/JsonHelper.java:88-96 | parseObject reads every object that the grammar derives as what it means, trims what precedes it and ignores whatever follows it; it throws if and only if an integer does not fit; the boxes are those of ValueBuilt |
| JsonTheorems.ParseArrayReads | sdks/java/src/main/java/io/featurebacon/JsonHelper.java:98-106 | parseArray does so for every array |
| JsonTheorems.PutDistinct | sdks/java/src/main/java/io/featurebacon/JsonHelper.java:197 | Reading a repeated key replaces its value: names stay distinct, nothing foreign appears |
| JsonTheorems.ValueBuilt | sdks/java/src/main/java/io/featurebacon/JsonHelper.java:172-297 | Whatever the parser returns on any text at any position: objects and arrays are wrapped, names are distinct, and at any depth each integer is an Integer if it lies between -2147483648 and 2147483647, a Long if it needs 64 bits, and none needs more |
| JsonTheorems.ParsedIsBuilt | sdks/java/src/main/java/io/featurebacon/JsonHelper.java:88-106 | So are the results of parseObject and parseArray on every input |
| JsonTheorems.ReadsBackAlike | sdks/java/src/main/java/io/featurebacon/JsonHelper.java:25-84 | What a printed value is read back as has the same numbers, texts, words, names and order, at any depth; other objects are the texts of their toString |
| JsonTheorems.NothingToRead | sdks/java/src/main/java/io/featurebacon/JsonHelper.java:88-106 | Null, blank text, and an array where an object is wanted or the reverse give an empty result and no exception |
| JsonTheorems.WordsAreRead | sdks/java/src/main/java/io/featurebacon/JsonHelper.java:251-260 | The texts true, false and null are read as those values |
| JsonReader.PutMeans | sdks/java/src/main/java/io/featurebacon/JsonHelper.java:197 | A repeated key keeps its place and takes the new value, and a new one goes to the end |
| JsonText.Characters | sdks/java/src/main/java/io/featurebacon/JsonHelper.java:172-217 | The characters and words that printer, parser and grammar share are those of JSON |
| JsonReprint.InfinityIsNotRead | sdks/java/src/main/java/io/featurebacon/JsonHelper.java:30-31 | A map with an infinite double among its values, whose toString is no number of JSON, is printed and then not read: parsing throws |
| JsonReprint.ReprintedExactlyWhen | sdks/java/src/main/java/io/featurebacon/JsonHelper.java:25-217 | Whatever text was parsed: printing the rawMap of the result and parsing that again gives the same object (doubles compared as doubles) if and only if no value in it is a JsonObject, a JsonArray or an infinite double |
| JsonReprint.NestedObjectIsLost | sdks/java/src/main/java/io/featurebacon/JsonHelper.java:32-37 | The text {"a":{}} shows it: after one round there is a string where the inner object was |
| Pagination.Parse | backend/internal/pagination/pagination.go:10-24 | Defaults and caps: page at least 1, page size between 1 and 100 |
| Pagination.TotalPages | backend/internal/pagination/pagination.go:26-37 | The number of pages is the least that covers all keys, and 0 only for none |
| Pagination.Info | backend/internal/pagination/pagination.go:26-37 | Computes that number of pages within 32 bits, without overflow |
| Pagination.PageCountsAgree | backend/internal/api/handlers/flags.go:107-110 | The rounding-up formula of the handlers gives the same number of pages |
| Pagination.SliceIsIntended | backend/modules/redis/store/store.go:61-71 | Without overflow the slice is keys (page-1)*perPage up to page*perPage, as far as there are any |
| Pagination.NoOverflowUpTo | backend/modules/redis/store/store.go:61-71 | Every page up to 21474836 is free of overflow for every page size that Parse yields |
| Pagination.PanicsExactlyWhen | backend/modules/redis/store/store.go:61-71 | The slice bounds are in order if and only if the wrapped offset is in a given range |
| Pagination.CorrectExactlyWhen | backend/modules/redis/store/store.go:61-71 | The page is the intended one if and only if nothing overflows, or the wrapped offset happens to lie past the end |
| Pagination.WrapIsCongruent | backend/modules/redis/store/store.go:61-71 | A conversion to 32 bits changes a number by a multiple of 4294967296 |
| Pagination.PagesPartition | backend/modules/redis/store/store.go:54-72 | Pages 1 to the last, concatenated, are the listing with no gap or repeat, and later pages are empty |
| Pagination.FarPagePanics | backend/modules/redis/store/store.go:61-71 | The next one, page 21474837 of 100, panics, whatever the listing holds |
| Pagination.FarPageRepeatsFirst | backend/modules/redis/store/store.go:61-71 | Page 1073741825 of 100 shows the first page again |
| Sorting.SortStrings | backend/modules/redis/store/store.go:60 | Sorting the members gives their one ascending listing |
| Sorting.AscendingIsSorted | backend/modules/redis/store/store.go:60 | An ascending listing is determined by its members, so the order in which Redis returns them does not matter |
| Sorting.LessExactlyWhen | backend/modules/redis/store/store.go:60 | The order is that of the dictionary: at the first difference the first text ends or has the smaller character |
| Keys.RenderIsInjective | backend/modules/redis/store/store.go:28-30 | Joined keys of any two records or indexes differ, within and across families, when tenants and subjects have no colon and no tenant is named apikey_by_hash |
| Keys.KeyText | backend/modules/redis/store/store.go:28-30 | The keys of all eight kinds, letter by letter, such as t:flags:k and apikey_by_hash:h |
| Keys.TenantsCollideExactlyWhen | backend/modules/redis/store/store.go:28-30 | Two tenants have a key in common if and only if one name extends the other by a colon and a record family |
| Keys.CutUndoesJoin | backend/modules/redis/store/store.go:390-394 | strings.Cut gets tenant and id back from the joined reference |
| RedisStore.Store.PaginateKeys | backend/modules/redis/store/store.go:54-72 | The page of the sorted members, or the error or panic, with the count, the offset and the end wrapped to 32 bits; what the answer says of the listing is ListedPages.ListingSaysHowMany |
| RedisStore.Store.CreateFlag | backend/modules/redis/store/store.go:76-95 | New key space and response, also when the index is of the wrong type and the record is already written; and the same call on the per-tenant maps; what is then read is ReadYourWrites.CreatedFlagIsRead |
| RedisStore.Store.GetFlag | backend/modules/redis/store/store.go:97-107 | The stored flag, none, or the failure |
| RedisStore.Store.ListFlags | backend/modules/redis/store/store.go:109-128 | The flags of the page in order, skipping those that cannot be read |
| RedisStore.Store.UpdateFlag | backend/modules/redis/store/store.go:130-151 | Keeps the creation time, sets the update time, and fails without a write when there is no flag; and the same call on the per-tenant maps; what is then read is ReadYourWrites.UpdatedFlagIsRead |
| RedisStore.Store.DeleteFlag | backend/modules/redis/store/store.go:153-162 | Removes the record, then the index entry; and the same call on the per-tenant maps |
| RedisStore.Store.SaveAssignment | backend/modules/redis/store/store.go:175-212 | Writes the assignment, with the expiry in Redis that its expiry time calls for; and the same call on the per-tenant maps |
| RedisStore.Store.GetAssignment | backend/modules/redis/store/store.go:214-239 | The stored assignment unless it is past its own expiry time |
| RedisStore.Store.CreateExperiment | backend/modules/redis/store/store.go:243-262 | New key space and response of a creation; and the same call on the per-tenant maps |
| RedisStore.Store.GetExperiment | backend/modules/redis/store/store.go:264-274 | The stored experiment, none, or the failure |
| RedisStore.Store.ListExperiments | backend/modules/redis/store/store.go:276-295 | The experiments of the page in order |
| RedisStore.Store.UpdateExperiment | backend/modules/redis/store/store.go:297-318 | Keeps the creation time, sets the update time, and fails without a write when there is no experiment; and the same call on the per-tenant maps |
| RedisStore.Store.CreateAPIKey | backend/modules/redis/store/store.go:347-377 | Writes the record, the id index and the hash reference; and the same call on the per-tenant maps |
| RedisStore.Store.GetAPIKeyByHash | backend/modules/redis/store/store.go:379-407 | Follows the hash reference to the record and its tenant |
| RedisStore.Store.ListAPIKeys | backend/modules/redis/store/store.go:409-428 | The keys of the page in order |
| RedisStore.Store.RevokeAPIKey | backend/modules/redis/store/store.go:430-448 | Sets the revocation time of the stored record, or fails without a write; and the same call on the per-tenant maps |
| RedisStore.Store.Serve | backend/modules/redis/store/store.go:76-448 | Any RPC is one step of the flat store and, with ids that keep the keys apart, one step of the per-tenant maps that the ghost field holds, with the same answer |
| Refinement.StepLeaves | backend/modules/redis/store/store.go:76-448 | With any ids whatever, an RPC changes nothing but the keys that it names |
| Refinement.StepFrame | backend/modules/redis/store/store.go:76-448 | An RPC leaves every key alone that it does not name |
| Refinement.AssignmentsAgree | backend/modules/redis/store/store.go:175-239 | The expiry in Redis never shows: reads answer as if assignments were kept for ever and only their own expiry time counted |
| Refinement.ListsAgree | backend/modules/redis/store/store.go:109-128 | Listings through the index sets and pages give the tenant's own records |
| Refinement.HashesAgree | backend/modules/redis/store/store.go:379-407 | A lookup by hash through the joined reference gives what the tenant maps hold |
| Refinement.StepRefines | backend/modules/redis/store/store.go:76-448 | Every RPC answers and changes the flat store as it does the per-tenant maps |
| Refinement.RunRefines | backend/modules/redis/store/store.go:76-448 | So does every sequence of RPCs, response by response |
| IndexCoherence.CallKeepsIndex | backend/modules/redis/store/store.go:76-448 | An RPC of a tenant, or of one that has no key among its records of a kind, leaves an exact index exact: flags, experiments and API keys alike, subjects and keys of any shape |
| IndexCoherence.IndexesAreExact | backend/modules/redis/store/store.go:76-448 | In every state that such RPCs reach, each index set of a tenant that is not among the hashes is exactly the keys whose record is stored, and each of those is a record of that kind with that key |
| IndexCoherence.IndexBreaksExactlyWhen | backend/modules/redis/store/store.go:28-448 | For any two tenants: some calls of the two leave an index of the first inexact if and only if it is among the hashes, its id extends the other by any record family, or the other extends it by the name of the family |
| IndexCoherence.ColonTenantHidesFlag | backend/modules/redis/store/store.go:76-95 | For instance, after tenant a:flags has created flag x, there is a flag of tenant a that no index lists |
| ListedPages.PagesListEverything | backend/modules/redis/store/store.go:54-428 | For flags, experiments and API keys: in a state with an exact index, the answers for page 1 to the last that the first answer counts, one after the other, are all stored records of the tenant, each once and in the order of their keys, as long as nothing overflows |
| ListedPages.ListingSaysHowMany | backend/modules/redis/store/store.go:54-72 | For flags, experiments and API keys: an answer says the page and page size that were asked for (1 and 20 if none were, at most 100), as total the number of stored records, and as pages the least number that shows them; there is no answer exactly if the wrapped bounds are out of order |
| ListedPages.UnreadableFlagsAreSkipped | backend/modules/redis/store/store.go:114-125 | A listing gets each flag as a read by key does, and leaves out those that are not there or cannot be read |
| ListedPages.UnreadableExperimentsAreSkipped | backend/modules/redis/store/store.go:281-292 | Likewise for experiments |
| ReadYourWrites.CallLeaves | backend/modules/redis/store/store.go:76-448 | With any ids, an RPC changes nothing but the keys listed letter by letter |
| ReadYourWrites.CreatedFlagIsRead | backend/modules/redis/store/store.go:76-107 | After any creation and any run of RPCs and evaluations that leaves the record alone, the flag is read with the nine fields of the request, both times being the second of the creation; the creation answers the same, or an error if the index is no set |
| ReadYourWrites.UpdateReplaces | backend/modules/redis/store/store.go:130-151 | On any store an update answers what a read gives afterwards: the nine fields of the request, the creation time that was there, the second of the update; without a readable flag it fails and writes nothing |
| ReadYourWrites.UpdatedFlagIsRead | backend/modules/redis/store/store.go:76-151 | After a creation, any number of updates in a run, a last update, and a run that leaves the record alone: the nine fields of the last request, the second of the creation, the second of the last update |
| ReadYourWrites.DeletedFlagIsGone | backend/modules/redis/store/store.go:153-162 | After a deletion there is no such flag until its record is written again; the deletion fails exactly if the index is no set |
| ReadYourWrites.CreatedExperimentIsRead | backend/modules/redis/store/store.go:243-274 | A created experiment is read with the six fields of the request and the second of its creation, after any run that leaves it alone |
| ReadYourWrites.ExperimentUpdateReplaces | backend/modules/redis/store/store.go:297-318 | On any store an update of an experiment answers what is read afterwards, or fails and writes nothing |
| ReadYourWrites.UpdatedExperimentIsRead | backend/modules/redis/store/store.go:243-318 | After any updates an experiment is read as the last one said, with the second of its creation and that of the last update |
| ReadYourWrites.SaveStores | backend/modules/redis/store/store.go:175-212 | A save keeps the assignment under its key; Redis drops it at its expiry time, or a millisecond after the save if that has passed, or never |
| ReadYourWrites.SavedAssignmentIsRead | backend/modules/redis/store/store.go:175-239 | After a save and any run that leaves it alone an assignment is read as it was saved, with the second of the save if it had no time of its own, up to its expiry time and not afterwards |
| ReadYourKeys.CreatedKeyIsFound | backend/modules/redis/store/store.go:347-407 | A created key is found by its hash with the six fields of the request, the second of its creation, its tenant, and no revocation whatever the request said, after any run that leaves record and reference alone, for every tenant that looks where it stores |
| ReadYourKeys.RevokeNeedsKey | backend/modules/redis/store/store.go:430-448 | Revoking a key that is not stored fails and writes nothing |
| ReadYourKeys.RevokedKeyIsFound | backend/modules/redis/store/store.go:347-448 | After any revocations it is found with the second of the last one, and otherwise as it was created |
| Reachable.SoundRun | backend/modules/redis/store/store.go:76-448 | Every run keeps the store representing tenant maps with each record under its own key |
| Reachable.ReachedIsSound | backend/modules/redis/store/store.go:76-448 | So is every state that calls with plain ids reach from the empty store |
| Reachable.FlagFound | backend/modules/redis/store/store.go:97-107 | In such a state reading a flag never fails, gives a flag with that key, and does not depend on the time |
| Reachable.ExperimentFound | backend/modules/redis/store/store.go:264-274 | The same for experiments |
| Isolation.OwnStep | backend/modules/redis/store/store.go:76-448 | A tenant's RPC has the same answer and effect on any two states that agree on that tenant |
| Isolation.ForeignStep | backend/modules/redis/store/store.go:76-448 | Another tenant's RPC leaves everything of this tenant as it was |
| Isolation.TenantsAreIsolated | backend/modules/redis/store/store.go:76-448 | In every run in which no hash is used for keys of two tenants, the answers to one tenant are those it would get with all other tenants' calls left out |
| Isolation.ColonTenantLeaks | backend/modules/redis/store/store.go:28-30 | With a colon in a tenant's name, one tenant reads another's flag |
| KeyConflicts.LookupKeyIs | backend/modules/redis/store/store.go:388-394 | Where a key is looked up by hash: under its own tenant if the id has no colon, and else under the part before the first colon |
| KeyConflicts.WritersUnder | backend/modules/redis/store/store.go:28-30 | Which tenants can have a key under a given prefix |
| Interference.WritesUnseen | backend/modules/redis/store/store.go:28-30 | A tenant outside of the stated condition writes no key that the other can see |
| Interference.OwnCall | backend/modules/redis/store/store.go:76-448 | With any tenant id: a call is answered alike on two stores that agree on the keys the tenant can see |
| Interference.AlikeRuns | backend/modules/redis/store/store.go:76-448 | Over every run in which no hash is used for keys of two tenants, the answers to a tenant are those of its own calls alone, if no other tenant of the run disturbs it |
| Disturbance.DisturbsExactlyWhen | backend/modules/redis/store/store.go:28-448 | For any two tenants: there is a run, with no hash used for keys of both, in which one changes an answer given to the other if and only if one id extends the other by a record family, one lies among the key hashes, or one has keys where those of the other are looked up |
| Disturbance.IsolatedExactlyWhen | backend/modules/redis/store/store.go:28-448 | For any set of tenants: all of them always get the answers they would get alone, in runs with no hash used for keys of two of them, if and only if no two satisfy that condition |
| FreshKeys.LookupIsOwnExactlyWhen | backend/modules/redis/store/store.go:388-394 | A key is looked up where it is stored if and only if the tenant id has no colon, or nothing but the word apikeys after its first |
| FreshKeys.FoundExactlyWhen | backend/modules/redis/store/store.go:347-407 | On any store without that record, a key just created is found by its hash if and only if that holds and the reference did not overwrite the record |
| FreshKeys.ColonTenantLosesKeys | backend/modules/redis/store/store.go:388-394 | For instance, a key just created by tenant a:b is not found by its hash |
| FreshKeys.EveryKeyFoundExactlyWhen | backend/modules/redis/store/store.go:347-407 | Every key of a tenant is found if and only if that holds and the tenant does not lie among the hashes |
| OwnRecords.OwnFlagsKept | backend/modules/redis/store/store.go:76-162 | Every RPC of a tenant, or of one whose id neither extends nor is extended by its id by the word flags, keeps all its flags under the keys that they have themselves, without expiry |
| OwnRecords.OwnExperimentsKept | backend/modules/redis/store/store.go:243-318 | The same for its experiments and the word experiments |
| OwnRecords.OwnKeysReached | backend/modules/redis/store/store.go:76-448 | So every run of such RPCs does |
| SubjectKeys.AssignmentsShareKeyExactlyWhen | backend/modules/redis/store/store.go:198 | Two assignments of a tenant have one key if and only if subject, colon and flag key join to one text |
| SubjectKeys.PlainFlagsKeepApart | backend/modules/redis/store/store.go:198 | With flag keys that have no colon, assignments have one key only if subject and flag are the same, whatever the subjects are called |
| SubjectKeys.SubjectsShareKeyExactlyWhen | backend/modules/redis/store/store.go:198 | Two subjects can have a key in common if and only if one is the other followed by a colon and more |
| ApiKeys.CreationKeepsCoherenceExactlyWhen | backend/modules/redis/store/store.go:347-377 | A creation keeps the hash index coherent if and only if id and hash are both new or both of one existing key |
| ApiKeys.OtherCallsKeepCoherence | backend/modules/redis/store/store.go:76-448 | No other RPC harms the coherence of the hash index |
| ApiKeys.LookupByHash | backend/modules/redis/store/store.go:347-407 | Whatever the store held when the key was created: after any later run a lookup by hash finds that very key under its own tenant, with the time of its last revocation, unless its id or hash is used again; subjects may be called anything, the tenant is looked up where it stores (as every id without a colon is), nobody calling since is among the hashes, and no other of them has keys among its API keys |
| ApiKeys.LookupGivesLast | backend/modules/redis/store/store.go:347-448 | Under the same conditions on all callers since the store was empty, whatever ids and hashes are used again: a lookup by hash gives the last key created under the tenant and id of the last key created with that hash, with the time of its last revocation, and nothing if no key was created with it |
| ApiKeys.LookupByHashExactlyWhen | backend/modules/redis/store/store.go:347-407 | When all callers meet those conditions: a created key is still found by its hash if and only if the last later creation with that hash, if there is one, is for the same tenant and id |
| ApiKeys.ReportedRevokedExactlyWhen | backend/modules/redis/store/store.go:379-448 | In every such later state the store reports a key as revoked if and only if it has been revoked since its creation |
| LostKeys.KeyIsLostExactlyWhen | backend/modules/redis/store/store.go:347-448 | For any two tenants: some later calls of the two, without reuse, keep a key of the first from being what its hash leads to if and only if that tenant is not looked up where it stores, one of the two is among the hashes, or the other has keys among its API keys |
| ApiKeys.EmptyIdsOverwrite | backend/internal/api/handlers/apikeys.go:121-126 | With the empty id that the handler sends, the second key of a tenant replaces the first, whose hash then leads to it |
| Rules.Bucket | backend/internal/engine/bucket.go:11-16 | A bucket lies between 0 and 99 |
| Rules.BucketIs | backend/internal/engine/bucket.go:11-16 | It is the last two decimal digits of the hash of tenant, flag and subject with colons between |
| Rules.BucketsAgreeExactlyWhen | backend/internal/engine/bucket.go:11-16 | Two subjects have one bucket under every hash if and only if these texts are the same |
| Rules.SubjectsCanBeSplit | backend/internal/engine/bucket.go:11-26 | For any two subjects of a flag and any percentage between 1 and 99 some hash has the first in the rollout and the second out of it |
| Rules.RolloutMeans | backend/internal/engine/engine.go:170-183 | A random flag compares the draw with the percentage, any other flag the bucket of the subject |
| Rules.InRolloutIsThreshold | backend/internal/engine/bucket.go:18-26 | A subject is in the rollout if and only if its bucket is below the percentage clamped to 0..100 |
| Rules.FirstFiring | backend/internal/engine/engine.go:142-168 | The answer comes from the first rule that fires, if there is one |
| Rules.FirstIsUnique | backend/internal/engine/engine.go:142-168 | A rule that fires while none before it does is that rule |
| Rules.DrawsDoNotMatter | backend/internal/engine/engine.go:170-183 | Only random flags look at the random draws |
| Rules.AnswersOwnKey | backend/internal/engine/engine.go:142-168 | A computed answer is about the flag itself and never has the reason persisted |
| Conditions.PathReads | backend/internal/engine/rules.go:56-76 | subjectId, environment and tenantId read the field of that name unless it is empty, attributes.k reads attribute k, and no other path reads anything |
| Conditions.AbsentMatchesNothing | backend/internal/engine/rules.go:12-15 | An absent attribute matches under no operator, negated or not |
| Conditions.UnknownOperatorMatchesNothing | backend/internal/engine/rules.go:17-43 | Nothing matches under an operator that is none of the eleven |
| Conditions.EqualsMeans | backend/internal/engine/rules.go:18-21 | equals holds if and only if value and attribute have the same text, and not_equals if and only if they have not |
| Conditions.InMeans | backend/internal/engine/rules.go:22-25 | in holds if and only if some item of the list has the text of the attribute, and never for what is no list; not_in is its complement |
| Conditions.PartsMean | backend/internal/engine/rules.go:26-31 | contains, starts_with and ends_with hold if and only if the attribute is the value with text on both sides, behind it, or before it |
| Conditions.ComparisonsMean | backend/internal/engine/rules.go:32-35 | greater_than and less_than are the strict orders of numbers, and false of anything else |
| Conditions.RegexMeans | backend/internal/engine/rules.go:169-188 | regex asks the regexp package about the two texts if the pattern has at most 1024 bytes, and else is false |
| Conditions.BytesAdd | backend/internal/engine/rules.go:167-180 | The bytes of a text add up, one for an ASCII character and two to four for others |
| Conditions.SemverMeans | backend/internal/engine/rules.go:192-235 | semver_match on written versions compares major, minor and patch as each of the five operators says |
| Conditions.ConditionsAreConjoined | backend/internal/engine/rules.go:46-53 | A condition among others must match along with them, wherever it stands; no conditions always match |
| Conditions.EnvironmentRuleDecides | backend/internal/engine/rules.go:11-76 | With one rule for all subjects of environment v, the rule decides exactly in that environment and the default in all others, for flags of every kind, hash and draw |
| RuleLists.DeadRuleElimination | backend/internal/engine/engine.go:142-183 | Deleting a rule that an earlier one covers changes no answer of a non-random flag |
| RuleLists.NextRuleDecides | backend/internal/engine/engine.go:142-183 | After deleting a rule, with every other rule keeping its draw, the same rule decides as before, or the next one that fires if it was the deleted one |
| RuleLists.CanBeDrawnExactlyWhen | backend/internal/engine/engine.go:170-183 | Some draws let a rule of a random flag decide if and only if it matches, its percentage is positive, and no earlier matching rule takes everybody |
| RuleLists.RandomDeletionMattersExactlyWhen | backend/internal/engine/engine.go:142-183 | Deleting a rule of a random flag changes some answer of a subject if and only if the rule can be drawn and something later with another answer can be drawn in its place |
| RuleLists.CoveredRuleOfRandomFlagMatters | backend/internal/engine/engine.go:170-183 | So the second of two equal rules matters, though the first covers it |
| RuleLists.RampUpIsStable | backend/internal/engine/engine.go:142-183 | Raising a percentage moves exactly the subjects whose bucket is in the new range, who match the rule, and for whom no earlier rule fires; they get that rule's answer and all others keep theirs |
| RuleLists.BucketDecides | backend/internal/engine/engine.go:142-183 | Without conditions the answer is that of the first rule whose threshold exceeds the bucket |
| RuleLists.BucketShare | backend/internal/engine/bucket.go:18-26 | Rule i gets max(0, its threshold minus the highest earlier one) of the buckets |
| RuleLists.BucketsAreConserved | backend/internal/engine/bucket.go:18-26 | These shares and that of the default add up to 100 |
| Semver.ParseSemverParts | backend/internal/engine/rules.go:253-273 | The nested loops over pieces and digits compute the version, missing pieces being 0, in wrapping 64-bit arithmetic |
| Semver.CompareSemver | backend/internal/engine/rules.go:239-251 | Compares component by component |
| Semver.SemverMatch | backend/internal/engine/rules.go:192-235 | The loop over the operators decides the constraint |
| Semver.TotalPreorder | backend/internal/engine/rules.go:239-251 | The comparison of any two texts is antisymmetric, transitive and total, and 0 only for equal versions |
| Semver.ParseWritten | backend/internal/engine/rules.go:253-273 | Parsing recovers major, minor and patch of a written version, whatever its suffix |
| Semver.ShortVersions | backend/internal/engine/rules.go:253-273 | Of a version of one or two numbers the missing ones count as 0 |
| Semver.OthersPassedOver | backend/internal/engine/rules.go:253-273 | Characters that are no digits are passed over, wherever they stand in a piece |
| Semver.OperatorIsRead | backend/internal/engine/rules.go:206-219 | A printed operator is read as itself and not as a shorter or longer one |
| Semver.MatchDecidesRelation | backend/internal/engine/rules.go:192-235 | Matching a written version with operator, spaces and target decides the relation of their meanings (item 11 of Semantic Versioning 2.0.0, without pre-release precedence) |
| Semver.BareMatchIsEquality | backend/internal/engine/rules.go:192-235 | Without an operator the constraint is equality |
| Engine.Engine.ScanRules | backend/internal/engine/engine.go:142-168 | The early-return scan gives the answer of the first rule that fires; what firing asks of a context is Conditions and Rules.RolloutMeans |
| Engine.Engine.EvaluatePersistentFlag | backend/internal/engine/engine.go:110-139 | Reads, computes and saves as specified, for every failure of read or save |
| Engine.Engine.EvaluateFlag | backend/internal/engine/engine.go:62-95 | Answer and new store of one evaluation, including not found, disabled and failed fetches; what these are is Answers.PlainAnswers and Answers.OnAnswers |
| Engine.Engine.EvaluateBatch | backend/internal/engine/engine.go:99-107 | The loop fills the result slice in order, each evaluation on the store the previous one left |
| BatchOrder.BatchInOrder | backend/internal/engine/engine.go:99-107 | Result k is what evaluating key k answers on the store that the evaluations before it have left, whatever failed in them |
| BatchOrder.BatchLeaves | backend/internal/engine/engine.go:99-107 | The store after a batch is what its last evaluation has left |
| Answers.PlainAnswers | backend/internal/engine/engine.go:62-88 | The reasons error, not found and disabled are given exactly if the fetch fails, there is no flag, or it is off; each is off, without a variant, for the key asked for, and leaves the store alone |
| Answers.OnAnswers | backend/internal/engine/engine.go:90-168 | A flag that is on answers the stored assignment that is read, else its first rule that fires (on, with the variant of the rule), else its default; persisted and no persistence are the reasons exactly if there is such an assignment and if a persistent flag has no store |
| Answers.EnabledExactlyWhen | backend/internal/engine/engine.go:62-168 | An answer is on if and only if the flag was fetched and is on, and the assignment read for it is on or, without one, a rule fires or the default is on |
| Answers.SwitchedOffAnswers | backend/internal/engine/engine.go:81-88 | From an update that switches a flag off until its record is written again, every evaluation answers disabled (error if the fetch fails) and saves nothing, over every run of RPCs and evaluations |
| Answers.CreatedOffAnswers | backend/internal/engine/engine.go:81-88 | So does a flag that is created off |
| Answers.DeletedAnswers | backend/internal/engine/engine.go:73-79 | From its deletion until its record is written again a flag is answered as not found |
| Answers.CreatedFlagAnswersByEnvironment | backend/internal/engine/engine.go:62-168 | From request to answer: a flag created with a rule for all subjects of environment v answers the variant of the rule in that environment and its default elsewhere, after any run that leaves its record alone |
| Stickiness.PinnedAnswers | backend/internal/engine/engine.go:110-139 | A stored assignment is the answer of every evaluation that reads it, with reason persisted, whatever the rules say and whatever the ids look like |
| Stickiness.ComputedIsPinned | backend/internal/engine/engine.go:118-136 | An answer computed and saved is stored without expiry |
| Stickiness.SaveKeepsExactlyWhen | backend/modules/redis/store/store.go:175-212 | A save without expiry leaves a stored answer if and only if it goes to another key or says the same |
| Stickiness.CallKeepsExactlyWhen | backend/modules/redis/store/store.go:76-448 | An RPC of anybody leaves a stored answer if and only if it writes no record under its key, or saves the same answer there |
| Stickiness.EvaluationKeepsExactlyWhen | backend/internal/engine/engine.go:62-139 | An evaluation of anybody loses it if and only if it uses that key, its read fails, its save goes through and the rules say something else |
| Stickiness.PinnedThroughoutExactlyWhen | backend/internal/engine/engine.go:62-139 | Over every run of RPCs and evaluations of anybody, a stored answer is there all the time if and only if no event is one of those |
| Stickiness.StickyOverRuns | backend/internal/engine/engine.go:62-139 | After a save every later evaluation that reads under the same key gives the same enabled and variant, with reason persisted, whatever happened in between short of overwriting it |
| Stickiness.StickyForOneSubject | backend/internal/engine/engine.go:62-139 | In particular the same tenant, subject and flag get the saved answer again over every run of rule edits, deletions and re-creations of flags, and of RPCs and evaluations of other subjects and of tenants that share no key with this one, as long as nobody saves that assignment directly and no read of it fails |
| Stickiness.FailedReadOverwrites | backend/internal/engine/engine.go:118-136 | After a failed read the answer of the rules is given, and the save, if it goes through, puts it in the place of whatever is stored |
| Stickiness.StoredAnswerSurvivesExactlyWhen | backend/internal/engine/engine.go:110-139 | A stored answer is given again if and only if the read succeeds or the rules say the same; it stays stored if and only if the read succeeds, the save fails, or the rules say the same |
| Stickiness.StickyOverRunsExactlyWhen | backend/internal/engine/engine.go:62-139 | After a save and any run that does not overwrite it: given again if and only if the read succeeds or the rules of that moment say the same |
| SharedAnswers.SaveReachesExactly | backend/internal/engine/engine.go:62-139 | In any store: after an evaluation has saved its answer, an evaluation of the same tenant is given that answer if subject, colon and flag key join to the same text, and otherwise just what it would have been given before |
| SharedAnswers.AnswerIsSharedExactlyWhen | backend/internal/engine/engine.go:110-139 | Two newly created persistent flags without rules and with different defaults, evaluated one after the other for two subjects of a tenant: the second is given the first answer if and only if the texts are the same |
| SharedAnswers.ColonSubjectIsGivenAnothersAnswer | backend/internal/engine/engine.go:110-139 | For instance, what is saved for subject a and flag b:c answers subject a:b for flag c |
| SharedAnswers.AnswerFlips | backend/internal/engine/engine.go:110-139 | Save, edit the flag, let one read fail, and the answer flips for good |
| Interleaving.AloneIsSequential | backend/internal/engine/engine.go:62-139 | The steps of one evaluation taken without interruption are the sequential evaluation |
| Interleaving.ActKeepsInv | backend/internal/engine/engine.go:110-139 | Every step of every evaluation, and RPCs of others that write neither the flag nor the assignment, keep all phases and the store in agreement with one decision, for ids of any shape |
| Interleaving.ConcurrentEvaluationsAgree | backend/internal/engine/engine.go:110-183 | Under any interleaving of any number of evaluations, with any reads and saves failing, all return the same enabled and variant |
| BatchOrder.OwnFlagsSuffice | backend/internal/engine/engine.go:99-139 | That the store gives persistent flags under their own keys holds in every state that OwnRecords.OwnKeysReached is about |
| BatchOrder.OneEvaluation | backend/internal/engine/engine.go:99-139 | One evaluation stores what it should for its own key and nothing for others, and keeps every flag |
| BatchOrder.BatchAnswers | backend/internal/engine/engine.go:99-139 | Each answer of a batch is what its key would get alone, repeated keys included, unless its flag is random; and what is stored depends only on the set of keys. No store call fails, the store gives the persistent flags asked for under their own keys, and nothing asked for expires meanwhile |
| BatchOrder.BatchOrderIndependence | backend/internal/engine/engine.go:99-139 | Two batches over the same keys in any order give the same answers for all but random flags, and leave the same assignments, on the same conditions |
| Search.GreedyScan | samples/10-backend-feature-flags/app.js:79-83 | The greedy scan succeeds if and only if the query is a subsequence of the name |
| Search.SearchExact | samples/10-backend-feature-flags/app.js:68-71 | Keeps, in order, the products whose lower-cased name contains the query |
| Search.IncludesExactlyWhen | samples/10-backend-feature-flags/app.js:68-71 | A name contains the query if and only if it is the query with text before and after it |
| Search.SubsequenceExactlyWhen | samples/10-backend-feature-flags/app.js:79-83 | The query is a subsequence of a name if and only if its characters stand in the name at ascending places |
| Search.FilterKeeps | samples/10-backend-feature-flags/app.js:68-85 | What is kept are the wanted products, as often as they were there, in their order |
| Search.SearchFuzzy | samples/10-backend-feature-flags/app.js:73-85 | Keeps, in order, exactly the products of whose lower-cased name the query is a subsequence |
| Search.IncludedIsSubsequence | samples/10-backend-feature-flags/app.js:77 | The substring test is implied |
| Search.WordStartIsSubsequence | samples/10-backend-feature-flags/app.js:78 | The word-prefix test is implied |
| Search.FuzzyContainsExact | samples/10-backend-feature-flags/app.js:68-85 | The exact result is contained in the fuzzy one, in the same order |
| EscapeHtml.SequentialIsSimultaneous | samples/10-backend-feature-flags/app.js:87-89 | The five passes equal one substitution per character |
| EscapeHtml.NothingRawIsLeft | samples/10-backend-feature-flags/app.js:87-89 | The output has no raw <, >, double or single quote |
| EscapeHtml.UnescapeUndoesEscape | samples/10-backend-feature-flags/app.js:87-89 | Undoing the passes in reverse restores every text |
| EscapeHtml.EscapeIsInjective | samples/10-backend-feature-flags/app.js:87-89 | Different texts stay different |
| EscapeHtml.EscapedIsShown | samples/10-backend-feature-flags/app.js:87-89 | HTML, reading its five character references, shows an escaped text as the text itself |
| Lifecycle.HandleLifecycleTransition | backend/internal/api/handlers/experiments.go:189-213 | Reads the experiment, checks the status, sets it and writes the store, with the reply for each case |
| Lifecycle.TransitionEffect | backend/internal/api/handlers/experiments.go:189-213 | For any tenant: an allowed transition changes status and update time of the record and nothing else in the store; a rejected one changes nothing; a missing experiment is not found |
| Lifecycle.TransitionTable | backend/internal/api/handlers/experiments.go:177-213 | draft and paused go to running by start, running to paused by pause, running and paused to completed by complete, and there is no other move: a request is granted exactly along these, the record as stored and answered has the new status and the second of the request and is otherwise the same, and all else is a conflict |
| Lifecycle.UnreadIsReported | backend/internal/api/handlers/experiments.go:215-229 | A failed read is an internal error and a missing experiment is not found; neither writes |
| Lifecycle.LifecycleOverRuns | backend/internal/api/handlers/experiments.go:177-213 | Over every run of requests of a tenant and of others that share no key of an experiment with it, each taken as one step, the status stays known, its rank never rises, completed is final, and all other fields stay |
| LifecycleTenants.SharedKeys | backend/internal/api/handlers/experiments.go:189-213 | The experiments and the index of a tenant t:experiments lie under keys of experiments of t |
| LifecycleTenants.LifecycleBreaksExactlyWhen | backend/internal/api/handlers/experiments.go:189-213 | For any two tenants: some calls of the two and one request of either break the lifecycle of an experiment of the first if and only if one id is the other followed by a colon and the word experiments, alone or with a colon and more |
| Lifecycle.NoStatusIsStuck | backend/internal/api/handlers/experiments.go:231-238 | An experiment without a status never changes, and every transition is refused |
| Lifecycle.CreatedOverHttpIsStuck | backend/internal/api/handlers/experiments.go:276-281 | That is so for every experiment created over HTTP |
| Lifecycle.PutErasesStatus | backend/internal/api/handlers/experiments.go:276-281 | And for every experiment replaced over HTTP, whatever its status was |
| Lifecycle.InterleavedPauseRevivesCompleted | backend/internal/api/handlers/experiments.go:189-213 | For instance, a pause that has read the record before a completion wins over it |
| LifecycleSchedules.AloneIsOneStep | backend/internal/api/handlers/experiments.go:189-213 | A handler that nobody interrupts is the transition as one step |
| LifecycleSchedules.ActOnStored | backend/internal/api/handlers/experiments.go:189-213 | An experiment changes only when one of its handlers writes what it had read, with the new status |
| LifecycleSchedules.CompletedStaysExactlyWhen | backend/internal/api/handlers/experiments.go:189-213 | Over all schedules of any handlers and RPCs of others: a completed experiment stays completed if and only if no handler that had read it before writes a start or pause |
| LifecycleSchedules.SchedulesKeepFields | backend/internal/api/handlers/experiments.go:177-213 | In every schedule, however reads and writes overlap, the status stays known and every field but status and update time is kept |
| LifecycleSchedules.RankRisesExactlyWhen | backend/internal/api/handlers/experiments.go:189-213 | A step raises the rank if and only if it is the write of a start or pause onto a completed experiment |
| LifecycleSchedules.RankNeverRisesExactlyWhen | backend/internal/api/handlers/experiments.go:177-213 | Over every schedule the rank never rises if and only if no step is such a write |
| Fanout.NilExactlyWhenAllSucceed | backend/internal/publisher/publisher.go:42 | The joined error is nil if and only if every publisher succeeded |
| Fanout.JoinedInOrder | backend/internal/publisher/publisher.go:42 | The joined errors are those of all publishers that failed, each once, in the order of the publishers |
| Fanout.StepInv | backend/internal/publisher/publisher.go:31-42 | Every step of the caller and of any goroutine keeps count, deliveries and the shared slice in agreement |
| Fanout.PublishIsScheduleIndependent | backend/internal/publisher/publisher.go:26-43 | Under every schedule, once Publish returns each publisher has the event exactly once, and the error is the join in the order of publishers |
| Fanout.StepsMakeProgress | backend/internal/publisher/publisher.go:31-42 | Every step brings the return nearer, whatever the other publishers answered |
| Fanout.NeverStuck | backend/internal/publisher/publisher.go:31-42 | Until the return some step is possible: no failure stops the others |
| Fanout.Publish | backend/internal/publisher/publisher.go:26-43 | For any completion order the slice of errors is the one in index order |
| Fanout.Close | backend/internal/publisher/publisher.go:45-53 | The errors of all publishers are joined in order; the first failure does not end the loop |

## Left out

- JsonRoundTrip.ReadsPrinted: takes a double as a numeral for it, and Double.toString and Double.parseDouble as the Java library's; NaN and the infinities are excluded, since their printed names are not JSON.
- JsonConformance.ReadNumeral: says which text reaches Double.parseDouble, not which double it gives.
- JsonReprint.ReprintedExactlyWhen: supposes of Double.toString that it gives a number of JSON or an infinity, and that parsing its result gives the same double.
- JsonHelper.Writer.WriteValue: takes toString as a function of the value, so two equal wrappers print alike; the depth of the JVM stack is not modelled.
- The accessors of the two JSON wrapper classes, which are plain lookups.
- RedisStore.Store.GetAPIKeyByHash: where a record stands under a hash, which only a tenant named after the hash index can bring about, the code takes the JSON text of the record for a reference; the model answers with a decoding error. A reference is never taken for JSON.
- RedisStore.Store.Serve: each RPC is one atomic step, so two RPCs do not interleave and a pipeline is not cut off half-way (an index of the wrong type inside one is modelled); only LifecycleSchedules and Interleaving look at calls of several RPCs that interleave.
- Disturbance.IsolatedExactlyWhen: supposes, like the other results on isolation, that no hash is used for keys of two tenants; what a lookup gives when one is, is ApiKeys.LookupGivesLast.
- Refinement.RunRefines: records are kept as values, so decoding one undoes encoding it (a record of another kind decodes by the fields that both kinds share), and Redis shares the clock that the service reads.
- Rules.InRolloutIsThreshold: the 32-bit murmur3 hash is an arbitrary function, so nothing is said of how evenly it spreads subjects.
- Semver.MatchDecidesRelation: pre-release precedence is not part of it, because the code drops pre-release text.
- Interleaving.ConcurrentEvaluationsAgree: evaluations that cannot fetch the flag return an error and are not compared.
- Lifecycle.LifecycleOverRuns: takes the read and the write of a request as one step; LifecycleSchedules takes them apart.
- Fanout.Publish: fixes one completion order at a time; the schedules of all goroutines are those of Fanout.PublishIsScheduleIndependent.
- Numeric comparisons of conditions are over reals; regular expressions and the text form of other values are arbitrary functions.
- Metrics and logging of the engine, and the conversion of definitions and assignments between the engine and the gRPC store client.
- HTTP routing and encoding, authentication, middleware, configuration and health checks.
- The Postgres and Mongo stores, MurmurHash3 and SHA-256 themselves.
- The front end, the SDK HTTP clients and the other samples.
