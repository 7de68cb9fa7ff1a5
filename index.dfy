/**
 `DatabaseIndexes`: the surrogate counter, the primary mapping and the four
 secondary indexes as fields of one object, with the operations that update
 them in place (`index_event` and its per-index helpers, `next_sid`, `clear`)
 and the read-only `query`. Each operation runs atomically here; the locks that
 guard the tables one by one are not modelled.
 */
module Index {
  import opened Keys
  import opened Tables
  import opened Query

  class DatabaseIndexes {
    var counter: nat
    var mapping: map<SmallerIdentifier, EventId>
    var kindsIndex: map<Kind, set<MappingIdentifier>>
    var authorsIndex: map<PublicKey, set<MappingIdentifier>>
    var createdAtIndex: map<Timestamp, set<MappingIdentifier>>
    var tagsIndex: map<Letter, map<MappingIdentifier, set<string>>>

    /** The five tables as one value. */
    function Contents(): Snapshot
      reads this
    {
      Snapshot(mapping, kindsIndex, authorsIndex, createdAtIndex, tagsIndex)
    }

    /** The counter fits a `u64` and the tables are consistent. */
    ghost predicate Valid()
      reads this
    {
      counter < U64_MODULUS && Consistent(Contents())
    }

    /** `DatabaseIndexes::new`: the counter at zero and every table empty. */
    constructor ()
      ensures Valid()
      ensures counter == 0 && Contents() == Empty
    {
      counter := 0;
      mapping := map[];
      kindsIndex := map[];
      authorsIndex := map[];
      createdAtIndex := map[];
      tagsIndex := map[];
      EmptyIsConsistent();
    }

    /**
     `next_sid`: hands out the counter value before the increment, written
     big-endian, and advances the counter by one, wrapping like `fetch_add`.
     */
    method NextSid() returns (sid: SmallerIdentifier)
      requires counter < U64_MODULUS
      modifies this`counter
      ensures SidValue(sid) == old(counter) && sid == SidFromCounter(old(counter))
      ensures counter == (old(counter) + 1) % U64_MODULUS
    {
      sid := SidFromCounter(counter);
      counter := (counter + 1) % U64_MODULUS;
    }

    /** `index_event_kind`: `mid` joins the bucket of the event's kind. */
    method IndexEventKind(mid: MappingIdentifier, event: Event)
      modifies this`kindsIndex
      ensures kindsIndex == AddToBucket(old(kindsIndex), event.kind, mid)
    {
      if event.kind in kindsIndex {
        kindsIndex := kindsIndex[event.kind := kindsIndex[event.kind] + {mid}];
      } else {
        kindsIndex := kindsIndex[event.kind := {mid}];
      }
    }

    /** `index_event_author`: `mid` joins the bucket of the event's author. */
    method IndexEventAuthor(mid: MappingIdentifier, event: Event)
      modifies this`authorsIndex
      ensures authorsIndex == AddToBucket(old(authorsIndex), event.pubkey, mid)
    {
      if event.pubkey in authorsIndex {
        authorsIndex := authorsIndex[event.pubkey := authorsIndex[event.pubkey] + {mid}];
      } else {
        authorsIndex := authorsIndex[event.pubkey := {mid}];
      }
    }

    /** `index_event_created_at`: `mid` joins the bucket of the event's timestamp. */
    method IndexEventCreatedAt(mid: MappingIdentifier, event: Event)
      modifies this`createdAtIndex
      ensures createdAtIndex == AddToBucket(old(createdAtIndex), event.createdAt, mid)
    {
      if event.createdAt in createdAtIndex {
        createdAtIndex := createdAtIndex[event.createdAt := createdAtIndex[event.createdAt] + {mid}];
      } else {
        createdAtIndex := createdAtIndex[event.createdAt := {mid}];
      }
    }

    /**
     `index_event_tags`: for each letter of the event's tag map, the letter's
     entry records the event's value set under `mid`, the entry being created
     when the letter is new.
     */
    method IndexEventTags(mid: MappingIdentifier, event: Event)
      modifies this`tagsIndex
      ensures tagsIndex == TagsInserted(old(tagsIndex), mid, event.tags)
    {
      var remaining := event.tags.Keys;
      TagsInsertedBounds(tagsIndex, mid, event.tags);
      assert event.tags.Keys - remaining == {};
      while remaining != {}
        invariant remaining <= event.tags.Keys
        invariant tagsIndex == TagsInserted(old(tagsIndex), mid, RestrictTags(event.tags, event.tags.Keys - remaining))
        decreases |remaining|
      {
        var a :| a in remaining;
        ghost var done := event.tags.Keys - remaining;
        TagsInsertedStep(old(tagsIndex), mid, event.tags, done, a);
        if a in tagsIndex {
          tagsIndex := tagsIndex[a := tagsIndex[a][mid := event.tags[a]]];
        } else {
          tagsIndex := tagsIndex[a := map[mid := event.tags[a]]];
        }
        assert event.tags.Keys - (remaining - {a}) == done + {a};
        remaining := remaining - {a};
      }
      assert event.tags.Keys - remaining == event.tags.Keys;
      TagsInsertedBounds(old(tagsIndex), mid, event.tags);
    }

    /**
     `index_event`: an expired or ephemeral event is neither stored nor
     indexed and leaves everything unchanged; any other event is stored, gets
     the next surrogate, and is entered into the mapping and all four indexes.
     Nothing is ever reported for discarding.
     */
    method IndexEvent(event: Event) returns (r: EventIndexResult)
      requires Valid()
      modifies this
      ensures Valid()
      ensures event.expired || event.ephemeral ==>
        r == EventIndexResult(false, {}) && counter == old(counter) && Contents() == old(Contents())
      ensures !(event.expired || event.ephemeral) ==>
        && r == EventIndexResult(true, {})
        && counter == (old(counter) + 1) % U64_MODULUS
        && Contents() == Admit(old(Contents()), event, SidFromCounter(old(counter)))
      ensures !(event.expired || event.ephemeral) && old(SidsBelow(mapping, counter)) ==>
        SidFromCounter(old(counter)) !in old(mapping)
      ensures !(event.expired || event.ephemeral) && old(SidsBelow(mapping, counter)) && old(counter) + 1 < U64_MODULUS ==>
        SidsBelow(mapping, counter)
    {
      if event.expired || event.ephemeral {
        return EventIndexResult(false, {});
      }
      var shouldInsert := true;
      ghost var before := Contents();
      ghost var oldCounter := counter;
      ghost var after := Admit(before, event, SidFromCounter(oldCounter));
      if shouldInsert {
        var sid := NextSid();
        var mid := MappingIdentifier(event.createdAt, sid);
        mapping := mapping[mid.sid := event.id];
        IndexEventKind(mid, event);
        IndexEventAuthor(mid, event);
        IndexEventCreatedAt(mid, event);
        IndexEventTags(mid, event);
        assert mapping == after.mapping;
        assert kindsIndex == after.kinds;
        assert authorsIndex == after.authors;
        assert createdAtIndex == after.createdAt;
        assert tagsIndex == after.tags;
      }
      assert Contents() == after;
      AdmitPreservesConsistency(before, event, SidFromCounter(oldCounter));
      if SidsBelow(before.mapping, oldCounter) {
        AdmitFreshSid(before, event, oldCounter);
      }
      r := EventIndexResult(shouldInsert, {});
    }

    /**
     The candidate-building part of `query`: the kind, author, created_at and
     tag categories the filter names, visited in that order and merged with
     `intersect_or_extend`.
     */
    method CollectCandidates(filter: Filter) returns (matchingSids: set<MappingIdentifier>)
      requires !BoundsInverted(filter)
      ensures matchingSids == Candidates(filter, Contents())
    {
      matchingSids := {};
      if filter.kinds != {} {
        var temp := QueryIndex(kindsIndex, filter.kinds);
        matchingSids := IntersectOrExtend(matchingSids, temp);
      }
      if filter.authors != {} {
        var temp := QueryIndex(authorsIndex, filter.authors);
        matchingSids := IntersectOrExtend(matchingSids, temp);
      }
      matchingSids := CollectTimeCategory(filter, matchingSids);
      if filter.genericTags != map[] {
        var temp := CollectTags(tagsIndex, filter.genericTags);
        matchingSids := IntersectOrExtend(matchingSids, temp);
      }
    }

    /**
     The created_at step of `query`: one inclusive range scan when both bounds
     are given, otherwise a scan from `since` upwards or up to `until`.
     */
    method CollectTimeCategory(filter: Filter, acc: set<MappingIdentifier>) returns (matchingSids: set<MappingIdentifier>)
      requires !BoundsInverted(filter)
      ensures filter.since.Some? || filter.until.Some? ==>
        matchingSids == IntersectOrExtend(acc, RangeUnion(createdAtIndex, filter.since, filter.until))
      ensures filter.since.None? && filter.until.None? ==> matchingSids == acc
    {
      matchingSids := acc;
      if filter.since.Some? && filter.until.Some? {
        var temp := CollectCreatedAt(createdAtIndex, filter.since, filter.until);
        matchingSids := IntersectOrExtend(matchingSids, temp);
      } else {
        if filter.since.Some? {
          var temp := CollectCreatedAt(createdAtIndex, filter.since, None);
          matchingSids := IntersectOrExtend(matchingSids, temp);
        }
        if filter.until.Some? {
          var temp := CollectCreatedAt(createdAtIndex, None, filter.until);
          matchingSids := IntersectOrExtend(matchingSids, temp);
        }
      }
    }

    /**
     `query`: a filter with ids answers them as they are, without looking at
     the tables; `since > until` answers nothing; otherwise the answer is the
     resolution of the newest `limit` candidates, oldest first.
     */
    method Query(filter: Filter) returns (result: seq<EventId>)
      ensures filter.ids != {} ==>
        && |result| == |filter.ids|
        && (forall id :: id in result <==> id in filter.ids)
        && (forall i, j :: 0 <= i < j < |result| ==> result[i] != result[j])
      ensures filter.ids == {} ==> result == Answer(filter, Contents())
    {
      if filter.ids != {} {
        result := CollectIds(filter.ids);
        return;
      }
      if filter.since.Some? && filter.until.Some? && filter.since.value > filter.until.value {
        return [];
      }

      var matchingSids := CollectCandidates(filter);

      var limit := if filter.limit.Some? then filter.limit.value else |matchingSids|;
      var ordered := InOrder(matchingSids);
      InOrderSeqMembers(matchingSids);
      var count := if limit < |ordered| then limit else |ordered|;
      assert count == TakeCount(filter.limit, |ordered|);
      assert ordered[..count] == Window(matchingSids, filter.limit);
      result := ResolveWindow(ordered[..count], mapping);
    }

    /** `clear`: empties the kind and author indexes only. */
    method Clear()
      requires Valid()
      modifies this`kindsIndex, this`authorsIndex
      ensures Valid()
      ensures Contents() == Cleared(old(Contents()))
    {
      kindsIndex := map[];
      authorsIndex := map[];
      ClearPreservesConsistency(old(Contents()));
    }
  }

  /**
   A store holding one admitted event answers a query for its kind with
   exactly that event's id.
   */
  lemma OneEventFoundByKind(e: Event)
    ensures Answer(Filter({}, {e.kind}, {}, None, None, map[], None), Admit(Empty, e, SidFromCounter(0)))
      == [e.id]
  {
    var f := Filter({}, {e.kind}, {}, None, None, map[], None);
    var t := Admit(Empty, e, SidFromCounter(0));
    var mid := MappingIdentifier(e.createdAt, SidFromCounter(0));
    assert t.kinds == map[e.kind := {mid}];
    assert BucketUnion(t.kinds, f.kinds) == {mid};
    assert Candidates(f, t) == {mid};
    CmpEqualIff(mid, mid);
    assert IsLeast(mid, {mid});
    InOrderSeqUnfold({mid}, mid);
    assert {mid} - {mid} == {};
    assert InOrderSeq({mid}) == [mid];
    assert Window({mid}, None) == [mid];
    assert t.mapping == map[mid.sid := e.id];
    assert ResolveRev([mid], t.mapping) == [e.id];
  }
}
