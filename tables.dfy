/**
 The five tables of the event index as one value, the event record the
 indexing pipeline consumes, and the change that admitting one event makes to
 the tables. The class `Index.DatabaseIndexes` holds the same tables as
 fields and is specified in terms of these functions.
 */
module Tables {
  import opened Keys

  datatype Option<T> = None | Some(value: T)

  /** The 32-byte content hash identifying an event. */
  type EventId = seq<byte>

  /** The author's x-only public key. */
  type PublicKey = seq<byte>

  /** The event kind number. */
  type Kind = nat

  /** A single-letter tag name (`Alphabet`). */
  type Letter = char

  /**
   What the index reads from an event. `tags` is the letter-to-value-set map
   the event builds from its tag list, and `expired` and `ephemeral` are its two
   derived flags; how they are computed lies outside the index.
   */
  datatype Event = Event(
    id: EventId,
    pubkey: PublicKey,
    kind: Kind,
    createdAt: Timestamp,
    tags: map<Letter, set<string>>,
    expired: bool,
    ephemeral: bool)

  /** The answer of `index_event`. */
  datatype EventIndexResult = EventIndexResult(toStore: bool, toDiscard: set<EventId>)

  /** The contents of the primary mapping and the four secondary indexes. */
  datatype Snapshot = Snapshot(
    mapping: map<SmallerIdentifier, EventId>,
    kinds: map<Kind, set<MappingIdentifier>>,
    authors: map<PublicKey, set<MappingIdentifier>>,
    createdAt: map<Timestamp, set<MappingIdentifier>>,
    tags: map<Letter, map<MappingIdentifier, set<string>>>)

  const Empty: Snapshot := Snapshot(map[], map[], map[], map[], map[])

  /**
   `entry(key).and_modify(|set| set.insert(mid)).or_insert_with(|| {mid})`:
   the bucket of `key` gains `mid`, and is created holding only `mid` when the
   key was absent; every other bucket is left as it was.
   */
  function AddToBucket<K>(index: map<K, set<MappingIdentifier>>, key: K, mid: MappingIdentifier)
    : (r: map<K, set<MappingIdentifier>>)
    ensures r.Keys == index.Keys + {key}
    ensures key in index ==> r[key] == index[key] + {mid}
    ensures key !in index ==> r[key] == {mid}
    ensures forall k :: k in index && k != key ==> r[k] == index[k]
  {
    index[key := if key in index then index[key] + {mid} else {mid}]
  }

  /** The per-event value sets recorded under tag letter `l` (empty when `l` is absent). */
  function TagEntry(tags: map<Letter, map<MappingIdentifier, set<string>>>, l: Letter)
    : map<MappingIdentifier, set<string>>
  {
    if l in tags then tags[l] else map[]
  }

  /**
   The tag index after recording, for every letter the event carries, that
   event's value set under `mid`. Letters the event does not carry, and every
   entry of other events, are unchanged.
   */
  function TagsInserted(
    tags: map<Letter, map<MappingIdentifier, set<string>>>,
    mid: MappingIdentifier,
    eventTags: map<Letter, set<string>>)
    : map<Letter, map<MappingIdentifier, set<string>>>
  {
    map l | l in tags.Keys + eventTags.Keys ::
      if l in eventTags then TagEntry(tags, l)[mid := eventTags[l]] else tags[l]
  }

  /**
   After recording, every letter of the event holds the event's value set
   under `mid`, the letters are those of before plus the event's, and every
   other entry, of any letter, is exactly as before.
   */
  lemma TagsInsertedSpec(
    tags: map<Letter, map<MappingIdentifier, set<string>>>,
    mid: MappingIdentifier,
    eventTags: map<Letter, set<string>>)
    ensures var r := TagsInserted(tags, mid, eventTags);
      && r.Keys == tags.Keys + eventTags.Keys
      && (forall l :: l in eventTags ==> mid in r[l] && r[l][mid] == eventTags[l])
      && (forall l :: l in tags && l !in eventTags ==> r[l] == tags[l])
      && (forall l, m :: l in r && m in r[l] && m != mid ==>
            l in tags && m in tags[l] && r[l][m] == tags[l][m])
      && (forall l, m :: l in tags && m in tags[l] && m != mid ==>
            l in r && m in r[l] && r[l][m] == tags[l][m])
  {
    var r := TagsInserted(tags, mid, eventTags);
    forall l, m | l in r && m in r[l] && m != mid
      ensures l in tags && m in tags[l] && r[l][m] == tags[l][m]
    {
      if l in eventTags {
        assert m in TagEntry(tags, l);
      }
    }
  }

  /** The event's tag map restricted to the letters in `done`. */
  function RestrictTags(eventTags: map<Letter, set<string>>, done: set<Letter>)
    : map<Letter, set<string>>
  {
    map l | l in eventTags.Keys * done :: eventTags[l]
  }

  /** Recording no letter changes nothing; recording all letters is `TagsInserted` itself. */
  lemma TagsInsertedBounds(tags: map<Letter, map<MappingIdentifier, set<string>>>, mid: MappingIdentifier, eventTags: map<Letter, set<string>>)
    ensures TagsInserted(tags, mid, RestrictTags(eventTags, {})) == tags
    ensures RestrictTags(eventTags, eventTags.Keys) == eventTags
  {
    assert RestrictTags(eventTags, {}) == map[];
  }

  /**
   Recording one more letter `l` of the event touches only the entry of `l`:
   this is one turn of the loop over the event's tag map.
   */
  lemma TagsInsertedStep(
    tags: map<Letter, map<MappingIdentifier, set<string>>>,
    mid: MappingIdentifier,
    eventTags: map<Letter, set<string>>,
    done: set<Letter>,
    l: Letter)
    requires l in eventTags && l !in done
    ensures var before := TagsInserted(tags, mid, RestrictTags(eventTags, done));
      TagsInserted(tags, mid, RestrictTags(eventTags, done + {l}))
        == before[l := TagEntry(before, l)[mid := eventTags[l]]]
  {
    var before := TagsInserted(tags, mid, RestrictTags(eventTags, done));
    var after := TagsInserted(tags, mid, RestrictTags(eventTags, done + {l}));
    assert TagEntry(before, l) == TagEntry(tags, l);
    assert after.Keys == before.Keys + {l};
    forall k | k in after.Keys
      ensures after[k] == before[l := TagEntry(before, l)[mid := eventTags[l]]][k]
    {
    }
  }

  /**
   Admission of `e` under the freshly allocated surrogate `sid`: the mapping
   sends `sid` to the event id, and the composite key (created_at, sid) joins
   the kind, author and created_at buckets and the tag index.
   */
  function Admit(t: Snapshot, e: Event, sid: SmallerIdentifier): Snapshot
  {
    var mid := MappingIdentifier(e.createdAt, sid);
    Snapshot(
      t.mapping[sid := e.id],
      AddToBucket(t.kinds, e.kind, mid),
      AddToBucket(t.authors, e.pubkey, mid),
      AddToBucket(t.createdAt, e.createdAt, mid),
      TagsInserted(t.tags, mid, e.tags))
  }

  /** `clear`: only the kind and author indexes are emptied. */
  function Cleared(t: Snapshot): Snapshot
  {
    t.(kinds := map[], authors := map[])
  }

  predicate BucketsResolve<K>(index: map<K, set<MappingIdentifier>>, mapping: map<SmallerIdentifier, EventId>)
  {
    forall k, m :: k in index && m in index[k] ==> m.sid in mapping
  }

  predicate TagsResolve(tags: map<Letter, map<MappingIdentifier, set<string>>>, mapping: map<SmallerIdentifier, EventId>)
  {
    forall l, m :: l in tags && m in tags[l] ==> m.sid in mapping
  }

  /** Every created_at bucket holds only keys carrying that bucket's timestamp. */
  predicate BucketedByTimestamp(createdAt: map<Timestamp, set<MappingIdentifier>>)
  {
    forall ts, m :: ts in createdAt && m in createdAt[ts] ==> m.timestamp == ts
  }

  /**
   The invariant the tables keep: every key in a secondary index resolves
   through the mapping, and the created_at index is bucketed by timestamp.
   */
  predicate Consistent(t: Snapshot)
  {
    && BucketsResolve(t.kinds, t.mapping)
    && BucketsResolve(t.authors, t.mapping)
    && BucketsResolve(t.createdAt, t.mapping)
    && TagsResolve(t.tags, t.mapping)
    && BucketedByTimestamp(t.createdAt)
  }

  lemma EmptyIsConsistent()
    ensures Consistent(Empty)
  {
  }

  /** Admitting an event keeps the tables consistent. */
  lemma AdmitPreservesConsistency(t: Snapshot, e: Event, sid: SmallerIdentifier)
    requires Consistent(t)
    ensures Consistent(Admit(t, e, sid))
  {
    var r := Admit(t, e, sid);
    TagsInsertedSpec(t.tags, MappingIdentifier(e.createdAt, sid), e.tags);
    forall l, m | l in r.tags && m in r.tags[l]
      ensures m.sid in r.mapping
    {
      if m != MappingIdentifier(e.createdAt, sid) {
        assert l in t.tags && m in t.tags[l];
      }
    }
  }

  /** Clearing keeps the tables consistent. */
  lemma ClearPreservesConsistency(t: Snapshot)
    requires Consistent(t)
    ensures Consistent(Cleared(t))
  {
  }

  /** Every surrogate in the mapping was made from a counter value below `counter`. */
  predicate SidsBelow(mapping: map<SmallerIdentifier, EventId>, counter: nat)
  {
    forall sid :: sid in mapping ==> SidValue(sid) < counter
  }

  /**
   While the counter has not wrapped, the surrogate it hands out (up to and
   including the last one, 2^64 - 1) is new to the mapping, so no earlier
   event is overwritten, and every surrogate stays below the incremented
   counter.
   */
  lemma AdmitFreshSid(t: Snapshot, e: Event, counter: nat)
    requires SidsBelow(t.mapping, counter) && counter < U64_MODULUS
    ensures SidFromCounter(counter) !in t.mapping
    ensures SidsBelow(Admit(t, e, SidFromCounter(counter)).mapping, counter + 1)
  {
  }
}
