# Event index of `nostr-sdk-db`, modelled in Dafny

The model covers the in-memory event index of the nostr SDK's database layer,
`DatabaseIndexes`. This object keeps the following tables:

- A 64-bit counter that hands out compact surrogate keys (`SmallerIdentifier`,
  8 big-endian bytes).
- The primary mapping from surrogate to event id.
- Four secondary indexes: by kind, by author, by `created_at` and by
  single-letter tag. Each index stores the composite key `MappingIdentifier`
  (timestamp plus surrogate).

`index_event` admits an event into every table. `query` resolves a filter
against the tables. `clear` empties two of the indexes.

Files:

- `keys.dfy` (module `Keys`): the surrogate key and its big-endian encoding;
  the composite key and its hand-written `cmp` (newest first, then surrogate
  ascending), proved to be a total order; and the in-order sequence of a set of
  composite keys, which is the order in which a `BTreeSet` iterates.
- `tables.dfy` (module `Tables`): the event as the index reads it, the five
  tables as one value (`Snapshot`), the change admitting one event makes
  (`Admit`), the change `clear` makes (`Cleared`), and the consistency
  invariant of the tables (every indexed key resolves through the mapping, and
  `created_at` buckets hold only keys of their own timestamp).
- `query.dfy` (module `Query`): the filter; the candidate set of each predicate
  category; `intersect_or_extend` and its fold over the categories, compared
  with plain intersection; the limit, reverse and resolution of the result; and
  the loops of `query` and `query_index` as methods proved against these
  functions.
- `index.dfy` (module `Index`): the class `DatabaseIndexes`. Its fields are the
  tables, and its methods (`NextSid`, `IndexEvent` and its four helpers,
  `Query`, `Clear`) update them in place. Each method is specified by the
  functions above.

Behaviour of the code worth noting:

- `next_sid` uses `fetch_add`, which returns the counter value before the
  increment. The first event admitted gets surrogate 0.
- The tag category is the union, over the requested letters, of the keys
  whose values for that letter include all the required values. A key that
  matches one requested letter is a candidate even if it fails another
  (`TagUnionLetters`).
- `intersect_or_extend` replaces an empty running set with the next category.
  Once the categories have had an empty intersection, a later category can
  therefore bring keys back (`EmptyConjunctionOverridden`). Whenever the plain
  conjunction is non-empty, the two agree (`CandidatesVersusConjunction`).
- `clear` empties only the kind and author indexes, and leaves the mapping,
  the `created_at` index and the tag index as they were. Until the next event
  is admitted, a kind or author predicate restricts no query: the candidates
  are those of the same filter with its kinds and authors dropped
  (`ClearIgnoresKindsAndAuthors`). Afterwards a kind or author predicate sees
  only the events admitted since the `clear`.
- A filter with no ids and no predicate answers nothing
  (`UnconstrainedAnswersNothing`).

## Model

| member | source | states |
|---|---|---|
| Keys.BeBytes | crates/nostr-sdk-db/src/index.rs:128-131 | `to_be_bytes` of `n` into `len` bytes gives exactly `len` bytes denoting `n` |
| Keys.BeBytesOfValue | crates/nostr-sdk-db/src/index.rs:128-131 | decoding a byte string and re-encoding it gives the same string back (the round trip of the big-endian encoding) |
| Keys.BeValueInjective | crates/nostr-sdk-db/src/index.rs:31-32 | two 8-byte surrogates denoting the same number are the same surrogate |
| Keys.LexCmpIsNumeric | crates/nostr-sdk-db/src/index.rs:31-32 | the derived byte-wise `Ord` of `[u8; 8]` agrees with numeric comparison of the big-endian values |
| Keys.SidFromCounter | crates/nostr-sdk-db/src/index.rs:128-131 | the surrogate made from a `u64` counter value denotes that value |
| Keys.SidOrderMatchesCounter | crates/nostr-sdk-db/src/index.rs:31-32 | surrogates compare exactly as the counter values they were issued from |
| Keys.SidFromCounterInjective | crates/nostr-sdk-db/src/index.rs:128-131 | distinct counter values give distinct surrogates, and conversely |
| Keys.CmpNewestFirst | crates/nostr-sdk-db/src/index.rs:52-61 | a later timestamp orders first, an earlier one last, and on equal timestamps the surrogates decide numerically |
| Keys.CmpEqualIff | crates/nostr-sdk-db/src/index.rs:52-61 | `cmp` gives `Equal` if and only if the two composite keys are equal (consistent with the derived `Eq`) |
| Keys.CmpAntisymmetric | crates/nostr-sdk-db/src/index.rs:52-61 | swapping the arguments of `cmp` reverses the result |
| Keys.CmpTransitive | crates/nostr-sdk-db/src/index.rs:52-61 | `cmp` is transitive, for both the strict and the non-strict order |
| Keys.LeastExists | crates/nostr-sdk-db/src/index.rs:52-61 | every non-empty set of composite keys has a first element under `cmp` |
| Keys.LeastUnique | crates/nostr-sdk-db/src/index.rs:52-61 | that first element is unique |
| Keys.InOrderSeqUnfold | crates/nostr-sdk-db/src/index.rs:286 | iterating the set yields its first element and then the rest in order |
| Keys.InOrderSeqMembers | crates/nostr-sdk-db/src/index.rs:286 | iterating a `BTreeSet` visits each of its elements exactly once |
| Keys.InOrderSeqSorted | crates/nostr-sdk-db/src/index.rs:286 | iterating a `BTreeSet` yields strictly increasing keys under `cmp` |
| Tables.AddToBucket | crates/nostr-sdk-db/src/index.rs:140-149 | the bucket of the key gains `mid` (and is created as `{mid}` if absent); no other bucket changes |
| Tables.TagsInsertedSpec | crates/nostr-sdk-db/src/index.rs:197-208 | after tag indexing, each letter of the event maps `mid` to the event's value set, and every other entry of every letter is unchanged |
| Tables.TagsInsertedStep | crates/nostr-sdk-db/src/index.rs:197-208 | one turn of the tag loop changes only the entry of its letter |
| Tables.TagsInsertedBounds | crates/nostr-sdk-db/src/index.rs:197-208 | indexing no letter changes nothing, and indexing every letter is the full tag indexing |
| Tables.AdmitPreservesConsistency | crates/nostr-sdk-db/src/index.rs:92-120 | admitting an event keeps every indexed key resolvable through the mapping and the `created_at` index bucketed by timestamp |
| Tables.ClearPreservesConsistency | crates/nostr-sdk-db/src/index.rs:314-323 | clearing the kind and author indexes keeps the tables consistent |
| Tables.AdmitFreshSid | crates/nostr-sdk-db/src/index.rs:93-99 | for every counter value up to and including 2^64 - 1, when all surrogates in the mapping come from lower values, the new surrogate is not yet in the mapping, so no earlier event is overwritten |
| Query.IntersectOrExtend | crates/nostr-sdk-db/src/index.rs:326-335 | the result lies within `other`; it is `other` when `main` is empty, and exactly `main ∩ other` otherwise |
| Query.FoldFromAppend | crates/nostr-sdk-db/src/index.rs:231-279 | folding over two runs of categories is folding over the first and then the second |
| Query.CombineWithinLast | crates/nostr-sdk-db/src/index.rs:231-279 | every key that survives lies in the last category the filter names |
| Query.CommonElementSurvives | crates/nostr-sdk-db/src/index.rs:231-279 | a key in every present category survives the combination |
| Query.CombineIsConjunction | crates/nostr-sdk-db/src/index.rs:231-279 | when the plain intersection of the categories is non-empty, the combination equals it |
| Query.ConjunctionWithinCombine | crates/nostr-sdk-db/src/index.rs:231-279 | the combination always keeps the plain intersection |
| Query.EmptyConjunctionOverridden | crates/nostr-sdk-db/src/index.rs:326-335 | with categories `{a}`, `{b}`, `{a}` the intersection is empty but the combination is `{a}` |
| Query.CandidatesIsCombine | crates/nostr-sdk-db/src/index.rs:231-279 | the step-by-step running set of `query` is the fold of `intersect_or_extend` over the categories, in the order kinds, authors, time, tags |
| Query.CandidatesWithinLastCategory | crates/nostr-sdk-db/src/index.rs:231-279 | every candidate lies in the last category the filter names |
| Query.CandidatesVersusConjunction | crates/nostr-sdk-db/src/index.rs:231-279 | the candidates include the conjunction of the present categories, and equal it when it is non-empty |
| Query.RangeUnionByTimestamp | crates/nostr-sdk-db/src/index.rs:241-263 | the time category holds exactly the indexed keys whose timestamp lies within the inclusive bounds |
| Query.ExactTimestampRange | crates/nostr-sdk-db/src/index.rs:241-246 | `since == until == T` selects exactly the bucket of `T` |
| Query.TagUnionLetters | crates/nostr-sdk-db/src/index.rs:265-279 | a key is a tag candidate if and only if, for some requested letter, its values include all the required values |
| Query.ClearIgnoresKindsAndAuthors | crates/nostr-sdk-db/src/index.rs:314-323 | after `clear`, every filter has the candidates of the same filter with its kinds and authors dropped, on the tables as they were before |
| Query.CandidatesResolve | crates/nostr-sdk-db/src/index.rs:281-291 | on consistent tables every candidate has a mapping entry |
| Query.InEveryAppend | crates/nostr-sdk-db/src/index.rs:231-279 | a key in every category of two runs is in every category of their concatenation |
| Query.NewKeyInBucketUnion | crates/nostr-sdk-db/src/index.rs:140-149 | a key just added to a requested bucket is found by the lookup of that category |
| Query.NewKeyInRange | crates/nostr-sdk-db/src/index.rs:178-187 | a key just added to the `created_at` index is found by any range containing its timestamp |
| Query.NewKeyInTags | crates/nostr-sdk-db/src/index.rs:265-279 | a key just tag-indexed is found when one requested letter's values are all among the event's |
| Query.AdmittedInEveryCategory | crates/nostr-sdk-db/src/index.rs:92-120 | the key of a newly admitted event lies in every category whose predicate the event meets |
| Query.AdmittedEventIsCandidate | crates/nostr-sdk-db/src/index.rs:231-279 | an event that meets every predicate of the filter is a candidate once admitted |
| Query.TakeCount | crates/nostr-sdk-db/src/index.rs:283-286 | `take(limit)` keeps `min(limit, size)` entries, and all of them without a limit |
| Query.ResolveRevSpec | crates/nostr-sdk-db/src/index.rs:286-291 | resolution never yields more ids than keys, and when all keys resolve it yields one id per key in reverse order |
| Query.WindowIsNewest | crates/nostr-sdk-db/src/index.rs:286 | the window holds `min(limit, size)` candidates from newest to oldest, and no candidate left out is newer than one kept |
| Query.AnswerLength | crates/nostr-sdk-db/src/index.rs:281-293 | on consistent tables nothing is skipped: the answer has exactly `min(limit, candidates)` ids |
| Query.AnswerOldestFirst | crates/nostr-sdk-db/src/index.rs:281-293 | on consistent tables the answer lists the window's events from oldest to newest |
| Query.UnconstrainedAnswersNothing | crates/nostr-sdk-db/src/index.rs:224-293 | a filter naming no predicate answers nothing |
| Query.CollectIds | crates/nostr-sdk-db/src/index.rs:214-216 | the filter's ids are returned, each exactly once |
| Query.BucketUnionAdd | crates/nostr-sdk-db/src/index.rs:305-309 | looking up one more key adds that key's bucket to the union |
| Query.QueryIndex | crates/nostr-sdk-db/src/index.rs:296-311 | `query_index` returns the union of the buckets of the requested keys |
| Query.CollectCreatedAt | crates/nostr-sdk-db/src/index.rs:241-263 | a range scan returns the union of the buckets within the inclusive bounds |
| Query.TagUnionAdd | crates/nostr-sdk-db/src/index.rs:268-276 | one more requested letter adds that letter's matches |
| Query.CollectLetter | crates/nostr-sdk-db/src/index.rs:269-275 | the keys of one letter whose values include every required value |
| Query.CollectTags | crates/nostr-sdk-db/src/index.rs:265-279 | the tag scan returns the union over the requested letters of their matches |
| Query.InOrder | crates/nostr-sdk-db/src/index.rs:286 | iterating the candidate set yields its in-order sequence |
| Query.ResolveWindow | crates/nostr-sdk-db/src/index.rs:286-291 | the reversed loop over the window pushes the mapped id of each key, skipping keys without an entry |
| Index.DatabaseIndexes.constructor | crates/nostr-sdk-db/src/index.rs:76-78 | a new index has the counter at zero and every table empty, and is consistent |
| Index.DatabaseIndexes.NextSid | crates/nostr-sdk-db/src/index.rs:128-131 | returns the surrogate of the counter value before the increment and advances the counter by one, modulo 2^64 |
| Index.DatabaseIndexes.IndexEventKind | crates/nostr-sdk-db/src/index.rs:134-150 | the kind index gains `mid` in the event kind's bucket |
| Index.DatabaseIndexes.IndexEventAuthor | crates/nostr-sdk-db/src/index.rs:153-169 | the author index gains `mid` in the author's bucket |
| Index.DatabaseIndexes.IndexEventCreatedAt | crates/nostr-sdk-db/src/index.rs:172-188 | the `created_at` index gains `mid` in the bucket of the event's timestamp |
| Index.DatabaseIndexes.IndexEventTags | crates/nostr-sdk-db/src/index.rs:191-209 | the tag index records the event's value set under `mid` for every letter of the event |
| Index.DatabaseIndexes.IndexEvent | crates/nostr-sdk-db/src/index.rs:82-126 | expired or ephemeral events are rejected (`to_store` false, nothing changes); any other event is stored under the next surrogate in the mapping and all four indexes; consistency is kept, nothing is ever discarded, no earlier event is overwritten while the counter has not wrapped (up to and including the value 2^64 - 1), and every surrogate stays below the advanced counter unless it wraps to 0 |
| Index.DatabaseIndexes.CollectCandidates | crates/nostr-sdk-db/src/index.rs:224-279 | the running set built over kinds, authors, time and tags is the candidate set of the filter |
| Index.DatabaseIndexes.CollectTimeCategory | crates/nostr-sdk-db/src/index.rs:241-263 | both bounds give one inclusive scan and one bound gives a one-sided scan; either way the result is `intersect_or_extend` with the range union, and without bounds nothing changes |
| Index.DatabaseIndexes.Query | crates/nostr-sdk-db/src/index.rs:213-294 | a filter with ids answers each of them once; otherwise the answer is empty for `since > until`, and else the newest `limit` candidates, oldest first, resolved through the mapping |
| Index.DatabaseIndexes.Clear | crates/nostr-sdk-db/src/index.rs:314-323 | empties the kind and author indexes only, and keeps the tables consistent |
| Index.OneEventFoundByKind | crates/nostr-sdk-db/src/index.rs:82-126 | after one event is admitted into empty tables, a query for its kind answers exactly its id |

## Left out

- The locks (`tokio::sync::RwLock`) and `async`: each operation is modelled as one atomic step. Interleavings of concurrent `index_event`, `query` and `clear` calls are not modelled.
- `AtomicU64` memory ordering: the counter is a plain field. Its 64-bit wrap-around is modelled explicitly.
- `tracing` instrumentation and the warning logged for a key without a mapping entry: the key is skipped and nothing is logged.
- `Event::is_expired`, `Event::is_ephemeral` and `Event::build_tags_index` are not part of this model. Their results are inputs (the `expired` and `ephemeral` flags, and the `tags` map of `Tables.Event`).
- The replaceable-event handling that the source marks as a TODO: `should_insert` is always true, as in the source.
- The capacity hints (`with_capacity`) are left out. Those in `index_event`'s helpers ask for one slot and change no result. The one in `query` (index.rs:284) asks for `limit` event ids, where `limit` is the client's `filter.limit`, and that request can fail.
- The internals of `Timestamp`, `Kind`, `EventId` and `XOnlyPublicKey`: they are modelled as a natural number, a natural number and byte strings.
- The iteration order of `HashSet` and `HashMap` (the ids returned verbatim and the loops over keys and letters): it is unspecified. The loops pick an arbitrary next element, and the ids are returned in an arbitrary order.
- Index.DatabaseIndexes.Query: for a filter with ids, the order of the returned ids is not stated, because it is the unspecified iteration order of a `HashSet`. A `limit` too large to allocate, for example `usize::MAX`, makes `query` panic with a capacity overflow or abort on allocation failure at index.rs:284. The model has no allocation, so it answers normally there.
- `limit` as a `usize` is modelled as an unbounded natural number.
