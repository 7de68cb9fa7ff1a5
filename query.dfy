/**
 Query resolution over the tables: the filter, the candidate set each
 predicate category yields, their combination by `intersect_or_extend`, and
 the ordered, limited, reversed resolution of the surviving keys through the
 mapping. The loops of `query` and `query_index` are the methods here; the
 functions are their specifications.
 */
module Query {
  import opened Keys
  import opened Tables

  /**
   A subscription filter: explicit ids, kinds, authors, a time range with
   optional inclusive bounds, required values per tag letter, and a limit.
   */
  datatype Filter = Filter(
    ids: set<EventId>,
    kinds: set<Kind>,
    authors: set<PublicKey>,
    since: Option<Timestamp>,
    until: Option<Timestamp>,
    genericTags: map<Letter, set<string>>,
    limit: Option<nat>)

  /** Both bounds are given and `since` lies after `until`. */
  predicate BoundsInverted(f: Filter)
  {
    f.since.Some? && f.until.Some? && f.since.value > f.until.value
  }

  /** The filter names at least one of the categories kinds, authors, time, tags. */
  predicate HasPredicate(f: Filter)
  {
    f.kinds != {} || f.authors != {} || f.since.Some? || f.until.Some? || f.genericTags != map[]
  }

  // ---------------------------------------------------------------------------
  // Combining categories

  /**
   `intersect_or_extend`: an empty running set is replaced by the next
   category's set, a non-empty one is intersected with it. Either way nothing
   outside `other` survives.
   */
  function IntersectOrExtend<T>(main: set<T>, other: set<T>): (r: set<T>)
    ensures r <= other
    ensures main == {} ==> r == other
    ensures main != {} ==> r <= main && main * other <= r
  {
    if main == {} then other else main * other
  }

  /** Folding `intersect_or_extend` over the categories, starting from `acc`. */
  function FoldFrom<T>(acc: set<T>, cs: seq<set<T>>): set<T>
    decreases |cs|
  {
    if cs == [] then acc else FoldFrom(IntersectOrExtend(acc, cs[0]), cs[1..])
  }

  /** The running set `query` ends with, starting from the empty `BTreeSet`. */
  function Combine<T>(cs: seq<set<T>>): set<T>
  {
    FoldFrom({}, cs)
  }

  /** Plain intersection of `acc` with every category. */
  function MeetFrom<T>(acc: set<T>, cs: seq<set<T>>): set<T>
    decreases |cs|
  {
    if cs == [] then acc else MeetFrom(acc * cs[0], cs[1..])
  }

  /** The conjunction of the present categories, as a NIP-01 filter means it. */
  function Conjunction<T>(cs: seq<set<T>>): set<T>
    requires cs != []
  {
    MeetFrom(cs[0], cs[1..])
  }

  lemma {:induction false} FoldFromAppend<T>(acc: set<T>, xs: seq<set<T>>, ys: seq<set<T>>)
    ensures FoldFrom(acc, xs + ys) == FoldFrom(FoldFrom(acc, xs), ys)
    decreases |xs|
  {
    if xs != [] {
      assert (xs + ys)[1..] == xs[1..] + ys;
      FoldFromAppend(IntersectOrExtend(acc, xs[0]), xs[1..], ys);
    } else {
      assert xs + ys == ys;
    }
  }

  lemma {:induction false} MeetFromShrinks<T>(acc: set<T>, cs: seq<set<T>>)
    ensures MeetFrom(acc, cs) <= acc
    decreases |cs|
  {
    if cs != [] {
      MeetFromShrinks(acc * cs[0], cs[1..]);
    }
  }

  /** Whatever survives the fold lies in the last category present. */
  lemma {:induction false} FoldFromWithinLast<T>(acc: set<T>, cs: seq<set<T>>)
    requires cs != []
    ensures FoldFrom(acc, cs) <= cs[|cs| - 1]
    decreases |cs|
  {
    if |cs| > 1 {
      FoldFromWithinLast(IntersectOrExtend(acc, cs[0]), cs[1..]);
    }
  }

  lemma CombineWithinLast<T>(cs: seq<set<T>>)
    requires cs != []
    ensures Combine(cs) <= cs[|cs| - 1]
  {
    FoldFromWithinLast({}, cs);
  }

  lemma {:induction false} FoldFromKeepsCommon<T>(acc: set<T>, cs: seq<set<T>>, x: T)
    requires x in acc || (acc == {} && cs != [])
    requires InEvery(cs, x)
    ensures x in FoldFrom(acc, cs)
    decreases |cs|
  {
    if cs != [] {
      FoldFromKeepsCommon(IntersectOrExtend(acc, cs[0]), cs[1..], x);
    }
  }

  /** A key found in every present category survives the combination. */
  lemma CommonElementSurvives<T>(cs: seq<set<T>>, x: T)
    requires cs != [] && InEvery(cs, x)
    ensures x in Combine(cs)
  {
    FoldFromKeepsCommon({}, cs, x);
  }

  lemma {:induction false} FoldFromIsMeet<T>(acc: set<T>, cs: seq<set<T>>)
    requires acc != {} && MeetFrom(acc, cs) != {}
    ensures FoldFrom(acc, cs) == MeetFrom(acc, cs)
    decreases |cs|
  {
    if cs != [] {
      MeetFromShrinks(acc * cs[0], cs[1..]);
      FoldFromIsMeet(acc * cs[0], cs[1..]);
    }
  }

  /**
   The combination of `query` is the conjunction of the present categories
   whenever that conjunction is non-empty; when it is empty the combination may
   still hold keys (see `EmptyConjunctionOverridden`).
   */
  lemma CombineIsConjunction<T>(cs: seq<set<T>>)
    requires cs != [] && Conjunction(cs) != {}
    ensures Combine(cs) == Conjunction(cs)
  {
    MeetFromShrinks(cs[0], cs[1..]);
    FoldFromIsMeet(cs[0], cs[1..]);
  }

  /** Every key the conjunction keeps, the combination keeps too. */
  lemma ConjunctionWithinCombine<T>(cs: seq<set<T>>)
    requires cs != []
    ensures Conjunction(cs) <= Combine(cs)
  {
    if Conjunction(cs) != {} {
      CombineIsConjunction(cs);
    }
  }

  /**
   Once the running set becomes empty, the next category replaces it: keys
   `a` in the first and third categories survive although the second excludes
   them and the conjunction is empty.
   */
  lemma EmptyConjunctionOverridden<T>(a: T, b: T)
    requires a != b
    ensures Conjunction([{a}, {b}, {a}]) == {}
    ensures Combine([{a}, {b}, {a}]) == {a}
  {
    var cs := [{a}, {b}, {a}];
    assert cs[1..] == [{b}, {a}] && cs[1..][1..] == [{a}] && cs[1..][1..][1..] == [];
    assert {a} * {b} == {};
    assert MeetFrom({a} * {b}, [{a}]) == {};
    assert FoldFrom({a}, [{b}, {a}]) == FoldFrom({}, [{a}]);
  }

  // ---------------------------------------------------------------------------
  // Candidate sets of the predicate categories

  /** The union of the buckets of the requested keys; keys without a bucket add nothing. */
  function BucketUnion<K>(index: map<K, set<MappingIdentifier>>, keys: set<K>): set<MappingIdentifier>
  {
    set k, m | k in keys && k in index && m in index[k] :: m
  }

  predicate InRange(ts: Timestamp, since: Option<Timestamp>, until: Option<Timestamp>)
  {
    (since.None? || since.value <= ts) && (until.None? || ts <= until.value)
  }

  /** The timestamps `created_at_index.range(..)` visits. */
  function RangeKeys(createdAt: map<Timestamp, set<MappingIdentifier>>, since: Option<Timestamp>, until: Option<Timestamp>)
    : set<Timestamp>
  {
    set ts | ts in createdAt && InRange(ts, since, until)
  }

  /** The union of the created_at buckets whose timestamp lies within the inclusive bounds. */
  function RangeUnion(createdAt: map<Timestamp, set<MappingIdentifier>>, since: Option<Timestamp>, until: Option<Timestamp>)
    : set<MappingIdentifier>
  {
    BucketUnion(createdAt, RangeKeys(createdAt, since, until))
  }

  /** The keys recorded under one tag letter whose value set contains every required value. */
  function LetterMatches(tagMap: map<MappingIdentifier, set<string>>, required: set<string>): set<MappingIdentifier>
  {
    set m | m in tagMap && required <= tagMap[m]
  }

  /** The union, over the requested letters, of each letter's matches. */
  function TagUnion(tags: map<Letter, map<MappingIdentifier, set<string>>>, required: map<Letter, set<string>>)
    : set<MappingIdentifier>
  {
    set l, m | l in required && l in tags && m in LetterMatches(tags[l], required[l]) :: m
  }

  /** The candidate sets of the categories the filter names, in the order `query` visits them. */
  function Categories(f: Filter, t: Snapshot): seq<set<MappingIdentifier>>
  {
    (if f.kinds != {} then [BucketUnion(t.kinds, f.kinds)] else [])
    + (if f.authors != {} then [BucketUnion(t.authors, f.authors)] else [])
    + (if f.since.Some? || f.until.Some? then [RangeUnion(t.createdAt, f.since, f.until)] else [])
    + (if f.genericTags != map[] then [TagUnion(t.tags, f.genericTags)] else [])
  }

  /** The running set after the kind category. */
  function AfterKinds(f: Filter, t: Snapshot): set<MappingIdentifier>
  {
    if f.kinds != {} then IntersectOrExtend({}, BucketUnion(t.kinds, f.kinds)) else {}
  }

  /** The running set after the author category. */
  function AfterAuthors(f: Filter, t: Snapshot): set<MappingIdentifier>
  {
    if f.authors != {} then IntersectOrExtend(AfterKinds(f, t), BucketUnion(t.authors, f.authors))
    else AfterKinds(f, t)
  }

  /** The running set after the time category. */
  function AfterTime(f: Filter, t: Snapshot): set<MappingIdentifier>
  {
    if f.since.Some? || f.until.Some? then IntersectOrExtend(AfterAuthors(f, t), RangeUnion(t.createdAt, f.since, f.until))
    else AfterAuthors(f, t)
  }

  /** The running set after the four categories, step by step as `query` builds it. */
  function Candidates(f: Filter, t: Snapshot): set<MappingIdentifier>
  {
    if f.genericTags != map[] then IntersectOrExtend(AfterTime(f, t), TagUnion(t.tags, f.genericTags))
    else AfterTime(f, t)
  }

  lemma FoldFromOne<T>(acc: set<T>, cs: seq<set<T>>)
    requires |cs| <= 1
    ensures FoldFrom(acc, cs) == if cs == [] then acc else IntersectOrExtend(acc, cs[0])
  {
  }

  /** The step-by-step running set is the fold of `intersect_or_extend` over the present categories. */
  lemma CandidatesIsCombine(f: Filter, t: Snapshot)
    ensures Candidates(f, t) == Combine(Categories(f, t))
  {
    var k := if f.kinds != {} then [BucketUnion(t.kinds, f.kinds)] else [];
    var a := if f.authors != {} then [BucketUnion(t.authors, f.authors)] else [];
    var r := if f.since.Some? || f.until.Some? then [RangeUnion(t.createdAt, f.since, f.until)] else [];
    var g := if f.genericTags != map[] then [TagUnion(t.tags, f.genericTags)] else [];
    FoldFromAppend({}, k + a + r, g);
    FoldFromAppend({}, k + a, r);
    FoldFromAppend({}, k, a);
    FoldFromOne({}, k);
    FoldFromOne(FoldFrom({}, k), a);
    FoldFromOne(FoldFrom({}, k + a), r);
    FoldFromOne(FoldFrom({}, k + a + r), g);
  }

  /** A filter naming no category yields no candidates at all. */
  lemma NoPredicateNoCandidates(f: Filter, t: Snapshot)
    requires !HasPredicate(f)
    ensures Candidates(f, t) == {}
  {
  }

  /**
   Every candidate lies in the last category the filter names. With kinds and
   authors only, an event outside the requested authors is excluded even when
   its kind matches.
   */
  lemma CandidatesWithinLastCategory(f: Filter, t: Snapshot)
    requires HasPredicate(f)
    ensures var cs := Categories(f, t); cs != [] && Candidates(f, t) <= cs[|cs| - 1]
  {
    CandidatesIsCombine(f, t);
    CombineWithinLast(Categories(f, t));
  }

  /**
   The conjunction of the present categories is always kept, and is exactly
   the candidate set when it is non-empty.
   */
  lemma CandidatesVersusConjunction(f: Filter, t: Snapshot)
    requires HasPredicate(f)
    ensures Categories(f, t) != []
    ensures Conjunction(Categories(f, t)) <= Candidates(f, t)
    ensures Conjunction(Categories(f, t)) != {} ==> Candidates(f, t) == Conjunction(Categories(f, t))
  {
    CandidatesIsCombine(f, t);
    ConjunctionWithinCombine(Categories(f, t));
    if Conjunction(Categories(f, t)) != {} {
      CombineIsConjunction(Categories(f, t));
    }
  }

  /** With a bucketed created_at index, the time category holds exactly the keys whose timestamp is in range. */
  lemma RangeUnionByTimestamp(createdAt: map<Timestamp, set<MappingIdentifier>>, since: Option<Timestamp>, until: Option<Timestamp>)
    requires BucketedByTimestamp(createdAt)
    ensures forall m :: m in RangeUnion(createdAt, since, until) <==>
      m.timestamp in createdAt && m in createdAt[m.timestamp] && InRange(m.timestamp, since, until)
  {
    forall m | m in RangeUnion(createdAt, since, until)
      ensures m.timestamp in createdAt && m in createdAt[m.timestamp]
    {
      var ts :| ts in createdAt && InRange(ts, since, until) && m in createdAt[ts];
      assert m.timestamp == ts;
    }
  }

  /** `since == until == T` selects precisely the bucket of `T`. */
  lemma ExactTimestampRange(createdAt: map<Timestamp, set<MappingIdentifier>>, ts: Timestamp)
    requires BucketedByTimestamp(createdAt)
    ensures RangeUnion(createdAt, Some(ts), Some(ts)) == if ts in createdAt then createdAt[ts] else {}
  {
    RangeUnionByTimestamp(createdAt, Some(ts), Some(ts));
  }

  /**
   Within one letter every requested value must be present; across letters
   the matches are united, so a key matching one requested letter is a
   candidate of the tag category even if it fails another.
   */
  lemma TagUnionLetters(tags: map<Letter, map<MappingIdentifier, set<string>>>, required: map<Letter, set<string>>, m: MappingIdentifier)
    ensures m in TagUnion(tags, required) <==>
      exists l :: l in required && l in tags && m in tags[l] && required[l] <= tags[l][m]
  {
    if exists l :: l in required && l in tags && m in tags[l] && required[l] <= tags[l][m] {
      var l :| l in required && l in tags && m in tags[l] && required[l] <= tags[l][m];
      assert m in LetterMatches(tags[l], required[l]);
    }
  }

  /**
   After `clear`, kind and author predicates no longer restrict a query: the
   candidates are those of the same filter without them, over the tables as
   they were before.
   */
  lemma ClearIgnoresKindsAndAuthors(f: Filter, t: Snapshot)
    ensures Candidates(f, Cleared(t)) == Candidates(f.(kinds := {}, authors := {}), t)
  {
    var g := f.(kinds := {}, authors := {});
    assert BucketUnion(Cleared(t).kinds, f.kinds) == {};
    assert BucketUnion(Cleared(t).authors, f.authors) == {};
    assert AfterAuthors(f, Cleared(t)) == {} == AfterAuthors(g, t);
    assert AfterTime(f, Cleared(t)) == AfterTime(g, t);
  }

  /** Every candidate of consistent tables resolves through the mapping. */
  lemma CandidatesResolve(f: Filter, t: Snapshot)
    requires Consistent(t)
    ensures forall m :: m in Candidates(f, t) ==> m.sid in t.mapping
  {
    if HasPredicate(f) {
      CandidatesWithinLastCategory(f, t);
      var cs := Categories(f, t);
      forall m: MappingIdentifier | m in cs[|cs| - 1]
        ensures m.sid in t.mapping
      {
        if f.genericTags != map[] {
          assert m in TagUnion(t.tags, f.genericTags);
          var l :| l in f.genericTags && l in t.tags && m in LetterMatches(t.tags[l], f.genericTags[l]);
        }
      }
    }
  }

  /** `x` lies in every category of `cs`. */
  predicate InEvery<T>(cs: seq<set<T>>, x: T)
  {
    forall i :: 0 <= i < |cs| ==> x in cs[i]
  }

  lemma InEveryAppend<T>(xs: seq<set<T>>, ys: seq<set<T>>, x: T)
    requires InEvery(xs, x) && InEvery(ys, x)
    ensures InEvery(xs + ys, x)
  {
    forall i | 0 <= i < |xs + ys|
      ensures x in (xs + ys)[i]
    {
      if i >= |xs| {
        assert (xs + ys)[i] == ys[i - |xs|];
      }
    }
  }

  lemma NewKeyInBucketUnion<K>(index: map<K, set<MappingIdentifier>>, key: K, keys: set<K>, mid: MappingIdentifier)
    requires key in keys
    ensures mid in BucketUnion(AddToBucket(index, key, mid), keys)
  {
    assert mid in AddToBucket(index, key, mid)[key];
  }

  lemma NewKeyInRange(createdAt: map<Timestamp, set<MappingIdentifier>>, mid: MappingIdentifier, since: Option<Timestamp>, until: Option<Timestamp>)
    requires InRange(mid.timestamp, since, until)
    ensures mid in RangeUnion(AddToBucket(createdAt, mid.timestamp, mid), since, until)
  {
    var after := AddToBucket(createdAt, mid.timestamp, mid);
    assert mid.timestamp in RangeKeys(after, since, until);
    NewKeyInBucketUnion(createdAt, mid.timestamp, RangeKeys(after, since, until), mid);
  }

  lemma NewKeyInTags(tags: map<Letter, map<MappingIdentifier, set<string>>>, mid: MappingIdentifier,
                     eventTags: map<Letter, set<string>>, required: map<Letter, set<string>>)
    requires exists l :: l in required && l in eventTags && required[l] <= eventTags[l]
    ensures mid in TagUnion(TagsInserted(tags, mid, eventTags), required)
  {
    var after := TagsInserted(tags, mid, eventTags);
    TagsInsertedSpec(tags, mid, eventTags);
    var l :| l in required && l in eventTags && required[l] <= eventTags[l];
    assert mid in LetterMatches(after[l], required[l]);
  }

  /** The key of a newly admitted event lies in every category whose predicate the event meets. */
  lemma AdmittedInEveryCategory(t: Snapshot, e: Event, sid: SmallerIdentifier, f: Filter)
    requires f.kinds != {} ==> e.kind in f.kinds
    requires f.authors != {} ==> e.pubkey in f.authors
    requires InRange(e.createdAt, f.since, f.until)
    requires f.genericTags != map[] ==>
      exists l :: l in f.genericTags && l in e.tags && f.genericTags[l] <= e.tags[l]
    ensures InEvery(Categories(f, Admit(t, e, sid)), MappingIdentifier(e.createdAt, sid))
  {
    var mid := MappingIdentifier(e.createdAt, sid);
    var t' := Admit(t, e, sid);
    var k := if f.kinds != {} then [BucketUnion(t'.kinds, f.kinds)] else [];
    var a := if f.authors != {} then [BucketUnion(t'.authors, f.authors)] else [];
    var r := if f.since.Some? || f.until.Some? then [RangeUnion(t'.createdAt, f.since, f.until)] else [];
    var g := if f.genericTags != map[] then [TagUnion(t'.tags, f.genericTags)] else [];
    if f.kinds != {} {
      NewKeyInBucketUnion(t.kinds, e.kind, f.kinds, mid);
    }
    if f.authors != {} {
      NewKeyInBucketUnion(t.authors, e.pubkey, f.authors, mid);
    }
    if f.since.Some? || f.until.Some? {
      NewKeyInRange(t.createdAt, mid, f.since, f.until);
    }
    if f.genericTags != map[] {
      NewKeyInTags(t.tags, mid, e.tags, f.genericTags);
    }
    assert InEvery(k, mid) && InEvery(a, mid) && InEvery(r, mid) && InEvery(g, mid);
    InEveryAppend(k, a, mid);
    InEveryAppend(k + a, r, mid);
    InEveryAppend(k + a + r, g, mid);
  }

  /**
   An event the filter selects in every category it names is a candidate once
   admitted.
   */
  lemma AdmittedEventIsCandidate(t: Snapshot, e: Event, sid: SmallerIdentifier, f: Filter)
    requires HasPredicate(f)
    requires f.kinds != {} ==> e.kind in f.kinds
    requires f.authors != {} ==> e.pubkey in f.authors
    requires InRange(e.createdAt, f.since, f.until)
    requires f.genericTags != map[] ==>
      exists l :: l in f.genericTags && l in e.tags && f.genericTags[l] <= e.tags[l]
    ensures MappingIdentifier(e.createdAt, sid) in Candidates(f, Admit(t, e, sid))
  {
    AdmittedInEveryCategory(t, e, sid, f);
    CandidatesIsCombine(f, Admit(t, e, sid));
    CommonElementSurvives(Categories(f, Admit(t, e, sid)), MappingIdentifier(e.createdAt, sid));
  }

  // ---------------------------------------------------------------------------
  // Ordering, limit and resolution

  /** `take(limit)` with `limit` defaulting to the size of the set. */
  function TakeCount(limit: Option<nat>, size: nat): (n: nat)
    ensures n <= size
    ensures limit.None? ==> n == size
    ensures limit.Some? ==> n == if limit.value < size then limit.value else size
  {
    var l := if limit.Some? then limit.value else size;
    if l < size then l else size
  }

  /** The first `limit` keys of the candidate set in `cmp` order: the newest ones. */
  ghost function Window(c: set<MappingIdentifier>, limit: Option<nat>): seq<MappingIdentifier>
  {
    var ordered := InOrderSeq(c);
    ordered[..TakeCount(limit, |ordered|)]
  }

  /**
   The window taken from the back: each key resolved through the mapping,
   keys without an entry skipped.
   */
  function ResolveRev(w: seq<MappingIdentifier>, mapping: map<SmallerIdentifier, EventId>): seq<EventId>
  {
    if w == [] then []
    else ResolveRev(w[1..], mapping) + (if w[0].sid in mapping then [mapping[w[0].sid]] else [])
  }

  /** What `query` answers for a filter without ids. */
  ghost function Answer(f: Filter, t: Snapshot): seq<EventId>
  {
    if BoundsInverted(f) then [] else ResolveRev(Window(Candidates(f, t), f.limit), t.mapping)
  }

  /**
   Resolution never yields more ids than keys; when every key resolves it
   yields one id per key, in reverse order.
   */
  lemma {:induction false} ResolveRevSpec(w: seq<MappingIdentifier>, mapping: map<SmallerIdentifier, EventId>)
    ensures |ResolveRev(w, mapping)| <= |w|
    ensures (forall i :: 0 <= i < |w| ==> w[i].sid in mapping) ==>
      |ResolveRev(w, mapping)| == |w| &&
      forall k :: 0 <= k < |w| ==> ResolveRev(w, mapping)[k] == mapping[w[|w| - 1 - k].sid]
  {
    if w != [] {
      ResolveRevSpec(w[1..], mapping);
    }
  }

  /**
   The window holds `min(limit, |c|)` keys of `c` from newest to oldest, and
   no key left out of it is newer than a key in it.
   */
  lemma WindowIsNewest(c: set<MappingIdentifier>, limit: Option<nat>)
    ensures |Window(c, limit)| == TakeCount(limit, |c|)
    ensures forall i :: 0 <= i < |Window(c, limit)| ==> Window(c, limit)[i] in c
    ensures forall i, j :: 0 <= i < j < |Window(c, limit)| ==>
      Window(c, limit)[i].timestamp >= Window(c, limit)[j].timestamp
    ensures forall i, x :: 0 <= i < |Window(c, limit)| && x in c && x !in Window(c, limit) ==>
      Window(c, limit)[i].timestamp >= x.timestamp
  {
    var ordered := InOrderSeq(c);
    var w := Window(c, limit);
    InOrderSeqMembers(c);
    InOrderSeqSorted(c);
    forall i, j | 0 <= i < j < |ordered|
      ensures ordered[i].timestamp >= ordered[j].timestamp
    {
      CmpNewestFirst(ordered[i], ordered[j]);
    }
    forall i, x | 0 <= i < |w| && x in c && x !in w
      ensures w[i].timestamp >= x.timestamp
    {
      var j :| 0 <= j < |ordered| && ordered[j] == x;
      assert j >= |w|;
    }
  }

  /** On consistent tables nothing is skipped: the answer has exactly `min(limit, |candidates|)` ids. */
  lemma AnswerLength(f: Filter, t: Snapshot)
    requires Consistent(t) && !BoundsInverted(f)
    ensures |Answer(f, t)| == TakeCount(f.limit, |Candidates(f, t)|)
  {
    var c := Candidates(f, t);
    CandidatesResolve(f, t);
    WindowIsNewest(c, f.limit);
    ResolveRevSpec(Window(c, f.limit), t.mapping);
  }

  /**
   On consistent tables the answer lists the window oldest first: position
   `k` holds the event of window key `n - 1 - k`, so later positions never
   hold older events.
   */
  lemma AnswerOldestFirst(f: Filter, t: Snapshot)
    requires Consistent(t) && !BoundsInverted(f)
    ensures var w := Window(Candidates(f, t), f.limit);
      |Answer(f, t)| == |w| &&
      forall k :: 0 <= k < |w| ==>
        w[|w| - 1 - k].sid in t.mapping && Answer(f, t)[k] == t.mapping[w[|w| - 1 - k].sid]
  {
    var c := Candidates(f, t);
    CandidatesResolve(f, t);
    WindowIsNewest(c, f.limit);
    ResolveRevSpec(Window(c, f.limit), t.mapping);
  }

  /** A filter naming no category answers nothing, whatever the tables hold. */
  lemma UnconstrainedAnswersNothing(f: Filter, t: Snapshot)
    requires !HasPredicate(f)
    ensures Answer(f, t) == []
  {
    NoPredicateNoCandidates(f, t);
    InOrderSeqMembers({});
  }

  // ---------------------------------------------------------------------------
  // The loops of `query` and `query_index`

  /** `filter.ids.iter().copied().collect()`: every id once, in some order. */
  method CollectIds(ids: set<EventId>) returns (r: seq<EventId>)
    ensures |r| == |ids|
    ensures forall id :: id in r <==> id in ids
    ensures forall i, j :: 0 <= i < j < |r| ==> r[i] != r[j]
  {
    r := [];
    var remaining := ids;
    while remaining != {}
      invariant remaining <= ids
      invariant forall id :: id in r <==> id in ids - remaining
      invariant forall i, j :: 0 <= i < j < |r| ==> r[i] != r[j]
      invariant |r| + |remaining| == |ids|
      decreases |remaining|
    {
      var id :| id in remaining;
      assert id !in r;
      r := r + [id];
      remaining := remaining - {id};
    }
  }

  lemma BucketUnionAdd<K>(index: map<K, set<MappingIdentifier>>, done: set<K>, key: K)
    ensures BucketUnion(index, done + {key})
      == BucketUnion(index, done) + (if key in index then index[key] else {})
  {
  }

  /** `query_index`: the union of the buckets of the requested keys. */
  method QueryIndex<K>(index: map<K, set<MappingIdentifier>>, keys: set<K>) returns (result: set<MappingIdentifier>)
    ensures result == BucketUnion(index, keys)
  {
    result := {};
    var remaining := keys;
    while remaining != {}
      invariant remaining <= keys
      invariant result == BucketUnion(index, keys - remaining)
      decreases |remaining|
    {
      var key :| key in remaining;
      BucketUnionAdd(index, keys - remaining, key);
      if key in index {
        result := result + index[key];
      }
      assert keys - (remaining - {key}) == (keys - remaining) + {key};
      remaining := remaining - {key};
    }
  }

  /**
   The created_at range scans of `query`: the union of the buckets between the
   inclusive bounds. `BTreeMap::range` panics on `since > until`, which the
   earlier exit of `query` rules out.
   */
  method CollectCreatedAt(createdAt: map<Timestamp, set<MappingIdentifier>>, since: Option<Timestamp>, until: Option<Timestamp>)
    returns (temp: set<MappingIdentifier>)
    requires since.Some? && until.Some? ==> since.value <= until.value
    ensures temp == RangeUnion(createdAt, since, until)
  {
    temp := {};
    var range := RangeKeys(createdAt, since, until);
    var remaining := range;
    while remaining != {}
      invariant remaining <= range
      invariant temp == BucketUnion(createdAt, range - remaining)
      decreases |remaining|
    {
      var ts :| ts in remaining;
      BucketUnionAdd(createdAt, range - remaining, ts);
      temp := temp + createdAt[ts];
      assert range - (remaining - {ts}) == (range - remaining) + {ts};
      remaining := remaining - {ts};
    }
  }

  lemma TagUnionAdd(tags: map<Letter, map<MappingIdentifier, set<string>>>, done: map<Letter, set<string>>, l: Letter, values: set<string>)
    requires l !in done
    ensures TagUnion(tags, done[l := values])
      == TagUnion(tags, done) + (if l in tags then LetterMatches(tags[l], values) else {})
  {
    var lhs := TagUnion(tags, done[l := values]);
    var rhs := TagUnion(tags, done) + (if l in tags then LetterMatches(tags[l], values) else {});
    forall m | m in lhs
      ensures m in rhs
    {
      var l' :| l' in done[l := values] && l' in tags && m in LetterMatches(tags[l'], done[l := values][l']);
      if l' != l {
        assert m in TagUnion(tags, done);
      }
    }
    forall m | m in rhs
      ensures m in lhs
    {
      if m in TagUnion(tags, done) {
        var l' :| l' in done && l' in tags && m in LetterMatches(tags[l'], done[l']);
        assert l' in done[l := values] && done[l := values][l'] == done[l'];
        assert m in LetterMatches(tags[l'], done[l := values][l']);
      } else {
        assert l in tags && m in LetterMatches(tags[l], values);
        assert l in done[l := values] && done[l := values][l] == values;
        assert m in LetterMatches(tags[l], done[l := values][l]);
      }
    }
  }

  /** The inner tag loop: keys under one letter whose values include every required value. */
  method CollectLetter(tagMap: map<MappingIdentifier, set<string>>, required: set<string>)
    returns (matches: set<MappingIdentifier>)
    ensures matches == LetterMatches(tagMap, required)
  {
    matches := {};
    var remaining := tagMap.Keys;
    while remaining != {}
      invariant remaining <= tagMap.Keys
      invariant matches == LetterMatches(tagMap, required) - remaining
      decreases |remaining|
    {
      var id :| id in remaining;
      if required <= tagMap[id] {
        matches := matches + {id};
      }
      remaining := remaining - {id};
    }
  }

  /** The tag loop of `query`: the union over the requested letters of each letter's matches. */
  method CollectTags(tags: map<Letter, map<MappingIdentifier, set<string>>>, required: map<Letter, set<string>>)
    returns (temp: set<MappingIdentifier>)
    ensures temp == TagUnion(tags, required)
  {
    temp := {};
    var remaining := required.Keys;
    while remaining != {}
      invariant remaining <= required.Keys
      invariant temp == TagUnion(tags, required - remaining)
      decreases |remaining|
    {
      var l :| l in remaining;
      var done := required - remaining;
      assert required - (remaining - {l}) == done[l := required[l]];
      TagUnionAdd(tags, done, l, required[l]);
      if l in tags {
        var matches := CollectLetter(tags[l], required[l]);
        temp := temp + matches;
      }
      remaining := remaining - {l};
    }
    assert required - {} == required;
  }

  /** Iterating a `BTreeSet`: the elements in `cmp` order. */
  method InOrder(s: set<MappingIdentifier>) returns (ordered: seq<MappingIdentifier>)
    ensures ordered == InOrderSeq(s)
  {
    ordered := [];
    var remaining := s;
    while remaining != {}
      invariant ordered + InOrderSeq(remaining) == InOrderSeq(s)
      decreases |remaining|
    {
      LeastExists(remaining);
      var m :| IsLeast(m, remaining);
      InOrderSeqUnfold(remaining, m);
      assert ordered + InOrderSeq(remaining) == (ordered + [m]) + InOrderSeq(remaining - {m});
      ordered := ordered + [m];
      remaining := remaining - {m};
    }
  }

  /** `for mid in window.rev()`: resolve each key through the mapping, skipping keys without an entry. */
  method ResolveWindow(window: seq<MappingIdentifier>, mapping: map<SmallerIdentifier, EventId>)
    returns (ids: seq<EventId>)
    ensures ids == ResolveRev(window, mapping)
  {
    ids := [];
    var i := |window|;
    while i > 0
      invariant 0 <= i <= |window|
      invariant ids == ResolveRev(window[i..], mapping)
    {
      i := i - 1;
      assert window[i..][1..] == window[i + 1..];
      var mid := window[i];
      if mid.sid in mapping {
        ids := ids + [mapping[mid.sid]];
      }
    }
  }
}
