/**
 The arena's spatial index (`ArenaIndex` in src/arena_index.rs): a map from
 every hex of the arena disk to the entities standing in it, kept in step
 with each entity's own `ArenaHex` record as entities move, leave the arena
 or are removed.

 The stored `ArenaHex` of every tracked entity is modelled as a map
 `hexes: map<Entity, Hex>`; an entity is tracked exactly when it is a key.
 */
module ArenaIndexing {
  import opened Base
  import opened Hexes

  datatype ArenaIndex = ArenaIndex(index: map<Hex, seq<Entity>>)

  /** Raised on an entity whose new hex lies outside the index. */
  datatype OutOfBoundsEvent = OutOfBoundsEvent(lastValidHex: Hex, outOfBoundsHex: Hex)

  /** `ArenaIndex::default()`: one empty bucket per arena hex. */
  function DefaultIndex(): (a: ArenaIndex)
    ensures forall h :: h in a.index <==> InArena(h)
    ensures forall h :: h in a.index ==> a.index[h] == []
  {
    ArenaIndex(map h | h in ArenaDisk() :: [])
  }

  // ---------------------------------------------------------------------
  // Relocation of one entity (the body of `update_arena_hex_and_index`)
  // ---------------------------------------------------------------------

  /** Outcome of relocating one entity: the new index, its new stored hex, and any out-of-bounds signal. */
  datatype Relocation = Relocation(index: ArenaIndex, hex: Hex, outOfBounds: Option<OutOfBoundsEvent>)

  /**
   Entity `e`, whose stored hex is `stored`, now stands on `newHex`. An
   unchanged hex does nothing; an unindexed hex signals out-of-bounds and
   changes nothing; otherwise `e` is appended to the new bucket, its first
   occurrence (if any) is dropped from the old bucket, and the stored hex
   becomes `newHex`.
   */
  function Relocate(a: ArenaIndex, e: Entity, stored: Hex, newHex: Hex): (r: Relocation)
    ensures newHex == stored ==> r == Relocation(a, stored, None)
    ensures newHex != stored && newHex !in a.index ==>
      r == Relocation(a, stored, Some(OutOfBoundsEvent(stored, newHex)))
    ensures newHex != stored && newHex in a.index ==>
      && r.hex == newHex && r.outOfBounds.None?
      && r.index.index.Keys == a.index.Keys
      && r.index.index[newHex] == a.index[newHex] + [e]
      && (stored in a.index ==> r.index.index[stored] == RemoveFirst(a.index[stored], e))
      && (forall h :: h in a.index && h != stored && h != newHex ==> r.index.index[h] == a.index[h])
  {
    if newHex == stored then Relocation(a, stored, None)
    else if newHex !in a.index then Relocation(a, stored, Some(OutOfBoundsEvent(stored, newHex)))
    else
      var pushed := a.index[newHex := a.index[newHex] + [e]];
      var removed := if stored in pushed then pushed[stored := RemoveFirst(pushed[stored], e)] else pushed;
      Relocation(ArenaIndex(removed), newHex, None)
  }

  /** Every entity occurs at most once in the index, and only in the bucket of its stored hex. */
  ghost predicate AtMostOnce(a: ArenaIndex, hexes: map<Entity, Hex>) {
    forall h, e :: h in a.index ==> BucketBound(a, hexes, h, e)
  }

  /** Entity `e` occurs in the bucket of `h` at most once if `h` is its stored hex, and never otherwise. */
  ghost predicate BucketBound(a: ArenaIndex, hexes: map<Entity, Hex>, h: Hex, e: Entity)
    requires h in a.index
  {
    Count(a.index[h], e) <= (if e in hexes && hexes[e] == h then 1 else 0)
  }

  /** Every tracked entity occurs exactly once, in the bucket of its stored hex. */
  ghost predicate ExactlyOnce(a: ArenaIndex, hexes: map<Entity, Hex>) {
    && AtMostOnce(a, hexes)
    && forall e :: e in hexes ==> hexes[e] in a.index && e in a.index[hexes[e]]
  }

  /** Relocation keeps the at-most-once invariant, with the entity's stored hex updated. */
  lemma RelocatePreservesAtMostOnce(a: ArenaIndex, hexes: map<Entity, Hex>, e: Entity, newHex: Hex)
    requires e in hexes && AtMostOnce(a, hexes)
    ensures var r := Relocate(a, e, hexes[e], newHex);
      AtMostOnce(r.index, hexes[e := r.hex])
  {
    var stored := hexes[e];
    var r := Relocate(a, e, stored, newHex);
    var hexes' := hexes[e := r.hex];
    if newHex != stored && newHex in a.index {
      forall h, x | h in r.index.index
        ensures BucketBound(r.index, hexes', h, x)
      {
        assert BucketBound(a, hexes, h, x);
        if h == newHex {
          CountAppend(a.index[newHex], [e], x);
          assert BucketBound(a, hexes, newHex, e);
          assert Count([e], x) == (if x == e then 1 else 0);
        } else if h == stored {
          RemoveFirstCount(a.index[stored], e, x);
        } else {
          assert r.index.index[h] == a.index[h];
          assert BucketBound(a, hexes, h, e);
        }
      }
    } else {
      assert hexes' == hexes;
    }
  }

  /** Relocation keeps the exactly-once invariant, with the entity's stored hex updated. */
  lemma RelocatePreservesExactlyOnce(a: ArenaIndex, hexes: map<Entity, Hex>, e: Entity, newHex: Hex)
    requires e in hexes && ExactlyOnce(a, hexes)
    ensures var r := Relocate(a, e, hexes[e], newHex);
      ExactlyOnce(r.index, hexes[e := r.hex])
  {
    RelocatePreservesAtMostOnce(a, hexes, e, newHex);
    var stored := hexes[e];
    var r := Relocate(a, e, stored, newHex);
    if newHex != stored && newHex in a.index {
      forall x | x in hexes && x != e
        ensures hexes[x] in r.index.index && x in r.index.index[hexes[x]]
      {
        if hexes[x] == stored {
          RemoveFirstMembers(a.index[stored], e, x);
        } else if hexes[x] == newHex {
          assert x in a.index[newHex] + [e];
        }
      }
      assert e in r.index.index[newHex];
    }
  }

  /** An entity whose hex changed to an indexed hex ends up in the new bucket and no longer in the old one. */
  lemma RelocateMovesEntity(a: ArenaIndex, hexes: map<Entity, Hex>, e: Entity, newHex: Hex)
    requires e in hexes && AtMostOnce(a, hexes)
    requires newHex != hexes[e] && newHex in a.index
    ensures var r := Relocate(a, e, hexes[e], newHex);
      && Count(r.index.index[newHex], e) == 1
      && (hexes[e] in a.index ==> e !in r.index.index[hexes[e]])
  {
    var r := Relocate(a, e, hexes[e], newHex);
    CountAppend(a.index[newHex], [e], e);
    assert BucketBound(a, hexes, newHex, e);
    assert Count([e], e) == 1;
    if hexes[e] in a.index {
      RemoveFirstCount(a.index[hexes[e]], e, e);
      assert BucketBound(a, hexes, hexes[e], e);
    }
  }

  /**
   A move to another indexed hex puts the entity into the index even when it
   was missing from it: if every other tracked entity is in its bucket, then
   afterwards every tracked entity is, exactly once.
   */
  lemma RelocateIndexesEntity(a: ArenaIndex, hexes: map<Entity, Hex>, e: Entity, newHex: Hex)
    requires e in hexes && AtMostOnce(a, hexes)
    requires forall x :: x in hexes && x != e ==> hexes[x] in a.index && x in a.index[hexes[x]]
    requires newHex != hexes[e] && newHex in a.index
    ensures var r := Relocate(a, e, hexes[e], newHex);
      ExactlyOnce(r.index, hexes[e := newHex])
  {
    RelocatePreservesAtMostOnce(a, hexes, e, newHex);
    var stored := hexes[e];
    var r := Relocate(a, e, stored, newHex);
    forall x | x in hexes && x != e
      ensures hexes[x] in r.index.index && x in r.index.index[hexes[x]]
    {
      if hexes[x] == stored {
        RemoveFirstMembers(a.index[stored], e, x);
      } else if hexes[x] == newHex {
        assert x in a.index[newHex] + [e];
      }
    }
    assert e in r.index.index[newHex];
  }

  // ---------------------------------------------------------------------
  // The whole system pass
  // ---------------------------------------------------------------------

  /** An entity whose `Transform` changed this frame, and the hex its new position maps to. */
  datatype Move = Move(entity: Entity, newHex: Hex)

  /** An out-of-bounds signal triggered on `entity`. */
  datatype Signal = Signal(entity: Entity, event: OutOfBoundsEvent)

  /** The index, the stored hexes and the signals raised so far in a pass. */
  datatype Pass = Pass(index: ArenaIndex, hexes: map<Entity, Hex>, signals: seq<Signal>)

  /** One moved entity handled by the pass; an entity without an `ArenaHex` is skipped. */
  function Step(p: Pass, m: Move): Pass {
    if m.entity !in p.hexes then p
    else
      var r := Relocate(p.index, m.entity, p.hexes[m.entity], m.newHex);
      Pass(r.index, p.hexes[m.entity := r.hex],
        p.signals + (if r.outOfBounds.Some? then [Signal(m.entity, r.outOfBounds.value)] else []))
  }

  /** Reference pass: every move applied in query order. */
  function RelocateAll(a: ArenaIndex, hexes: map<Entity, Hex>, moved: seq<Move>): Pass
    decreases |moved|
  {
    if |moved| == 0 then Pass(a, hexes, [])
    else Step(RelocateAll(a, hexes, moved[..|moved| - 1]), moved[|moved| - 1])
  }

  /**
   A whole pass keeps the at-most-once invariant and the key sets, changes a
   stored hex only to an indexed one, and raises at most one signal per move,
   each naming a tracked entity and an unindexed hex.
   */
  lemma {:induction false} RelocateAllFacts(a: ArenaIndex, hexes: map<Entity, Hex>, moved: seq<Move>)
    requires AtMostOnce(a, hexes)
    ensures var p := RelocateAll(a, hexes, moved);
      && AtMostOnce(p.index, p.hexes)
      && p.index.index.Keys == a.index.Keys && p.hexes.Keys == hexes.Keys
      && (forall e :: e in p.hexes && p.hexes[e] != hexes[e] ==> p.hexes[e] in a.index)
      && |p.signals| <= |moved|
      && (forall s :: s in p.signals ==> s.event.outOfBoundsHex !in a.index && s.entity in hexes)
    decreases |moved|
  {
    if |moved| > 0 {
      var prev := RelocateAll(a, hexes, moved[..|moved| - 1]);
      RelocateAllFacts(a, hexes, moved[..|moved| - 1]);
      var m := moved[|moved| - 1];
      if m.entity in prev.hexes {
        RelocatePreservesAtMostOnce(prev.index, prev.hexes, m.entity, m.newHex);
      }
    }
  }

  /** A whole pass keeps every tracked entity exactly once in the bucket of its stored hex. */
  lemma {:induction false} RelocateAllPreservesExactlyOnce(a: ArenaIndex, hexes: map<Entity, Hex>, moved: seq<Move>)
    requires ExactlyOnce(a, hexes)
    ensures var p := RelocateAll(a, hexes, moved); ExactlyOnce(p.index, p.hexes)
    decreases |moved|
  {
    if |moved| > 0 {
      var prev := RelocateAll(a, hexes, moved[..|moved| - 1]);
      RelocateAllPreservesExactlyOnce(a, hexes, moved[..|moved| - 1]);
      var m := moved[|moved| - 1];
      if m.entity in prev.hexes {
        RelocatePreservesExactlyOnce(prev.index, prev.hexes, m.entity, m.newHex);
      }
    }
  }

  /**
   `update_arena_hex_and_index`: relocate every moved entity in query order.
   Entities without an `ArenaHex` are skipped.
   */
  method UpdateArenaHexAndIndex(a: ArenaIndex, hexes: map<Entity, Hex>, moved: seq<Move>)
    returns (a': ArenaIndex, hexes': map<Entity, Hex>, signals: seq<Signal>)
    ensures Pass(a', hexes', signals) == RelocateAll(a, hexes, moved)
    ensures AtMostOnce(a, hexes) ==> AtMostOnce(a', hexes')
    ensures ExactlyOnce(a, hexes) ==> ExactlyOnce(a', hexes')
  {
    a', hexes', signals := a, hexes, [];
    var i := 0;
    while i < |moved|
      invariant 0 <= i <= |moved|
      invariant Pass(a', hexes', signals) == RelocateAll(a, hexes, moved[..i])
    {
      var m := moved[i];
      assert moved[..i + 1][..i] == moved[..i];
      if m.entity in hexes' {
        var r := Relocate(a', m.entity, hexes'[m.entity], m.newHex);
        if r.outOfBounds.Some? {
          signals := signals + [Signal(m.entity, r.outOfBounds.value)];
        }
        a', hexes' := r.index, hexes'[m.entity := r.hex];
      }
      i := i + 1;
    }
    assert moved[..i] == moved;
    if AtMostOnce(a, hexes) {
      RelocateAllFacts(a, hexes, moved);
    }
    if ExactlyOnce(a, hexes) {
      RelocateAllPreservesExactlyOnce(a, hexes, moved);
    }
  }

  // ---------------------------------------------------------------------
  // Removal (`remove_entity_from_index`)
  // ---------------------------------------------------------------------

  /** What the removal observer reports. */
  datatype RemoveOutcome =
    | Removed
      /** The entity has no `ArenaHex`: the observer returns an error. */
    | NoArenaHex
      /** The stored hex has no bucket: an error is logged. */
    | HexNotIndexed
      /** The bucket does not hold the entity: an error is logged. */
    | EntityNotFound

  datatype Removal = Removal(index: ArenaIndex, outcome: RemoveOutcome)

  /**
   Observer run when `ArenaHex` is removed from `e` (on despawn): drop the
   first occurrence of `e` from the bucket of its stored hex; a missing
   record, bucket or entry changes nothing and is reported.
   */
  function RemoveFromIndex(a: ArenaIndex, hexes: map<Entity, Hex>, e: Entity): (r: Removal)
    ensures r.outcome == Removed <==> e in hexes && hexes[e] in a.index && e in a.index[hexes[e]]
    ensures r.outcome == NoArenaHex <==> e !in hexes
    ensures r.outcome == HexNotIndexed <==> e in hexes && hexes[e] !in a.index
    ensures r.outcome != Removed ==> r.index == a
    ensures r.outcome == Removed ==>
      && r.index.index == a.index[hexes[e] := RemoveFirst(a.index[hexes[e]], e)]
      && |r.index.index[hexes[e]]| == |a.index[hexes[e]]| - 1
  {
    if e !in hexes then Removal(a, NoArenaHex)
    else if hexes[e] !in a.index then Removal(a, HexNotIndexed)
    else if e !in a.index[hexes[e]] then Removal(a, EntityNotFound)
    else Removal(ArenaIndex(a.index[hexes[e] := RemoveFirst(a.index[hexes[e]], e)]), Removed)
  }

  /** Removal keeps the at-most-once invariant for the entities still tracked. */
  lemma RemovePreservesAtMostOnce(a: ArenaIndex, hexes: map<Entity, Hex>, e: Entity)
    requires AtMostOnce(a, hexes)
    ensures AtMostOnce(RemoveFromIndex(a, hexes, e).index, hexes - {e})
  {
    var r := RemoveFromIndex(a, hexes, e);
    var hexes' := hexes - {e};
    forall h, x | h in r.index.index
      ensures BucketBound(r.index, hexes', h, x)
    {
      RemoveCountAt(a, hexes, e, h, x);
    }
  }

  lemma RemoveCountAt(a: ArenaIndex, hexes: map<Entity, Hex>, e: Entity, h: Hex, x: Entity)
    requires AtMostOnce(a, hexes)
    requires h in RemoveFromIndex(a, hexes, e).index.index
    ensures BucketBound(RemoveFromIndex(a, hexes, e).index, hexes - {e}, h, x)
  {
    var r := RemoveFromIndex(a, hexes, e);
    var hexes' := hexes - {e};
    assert h in a.index;
    assert BucketBound(a, hexes, h, x);
    if r.outcome == Removed && h == hexes[e] {
      RemoveFirstCount(a.index[h], e, x);
    } else {
      assert r.index.index[h] == a.index[h];
      if x == e && e in hexes && hexes[e] == h {
        assert e !in a.index[h];
      }
    }
    assert (x in hexes && x != e && hexes[x] == h) == (x in hexes' && hexes'[x] == h);
  }

  /** After removal the entity is in no bucket. */
  lemma RemoveLeavesNoTrace(a: ArenaIndex, hexes: map<Entity, Hex>, e: Entity)
    requires AtMostOnce(a, hexes)
    ensures var r := RemoveFromIndex(a, hexes, e);
      && r.index.index.Keys == a.index.Keys
      && forall h :: h in r.index.index ==> e !in r.index.index[h]
  {
    var r := RemoveFromIndex(a, hexes, e);
    forall h | h in r.index.index ensures e !in r.index.index[h] {
      RemoveCountAt(a, hexes, e, h, e);
    }
  }

  /** Removal keeps every other tracked entity exactly once in its bucket. */
  lemma RemovePreservesExactlyOnce(a: ArenaIndex, hexes: map<Entity, Hex>, e: Entity)
    requires ExactlyOnce(a, hexes)
    ensures ExactlyOnce(RemoveFromIndex(a, hexes, e).index, hexes - {e})
  {
    RemovePreservesAtMostOnce(a, hexes, e);
    var r := RemoveFromIndex(a, hexes, e);
    forall x | x in hexes - {e} ensures x in r.index.index[hexes[x]] {
      if r.outcome == Removed && hexes[x] == hexes[e] {
        RemoveFirstMembers(a.index[hexes[e]], e, x);
      }
    }
  }

  // ---------------------------------------------------------------------
  // Spawning a tracked entity
  // ---------------------------------------------------------------------

  /**
   Spawning an entity that requires `ArenaHex` gives it the default record
   (the origin) without touching the index.
   */
  function SpawnTracked(hexes: map<Entity, Hex>, e: Entity): (r: map<Entity, Hex>)
    ensures r.Keys == hexes.Keys + {e} && r[e] == Zero
  {
    hexes[e := Zero]
  }

  /** Spawning a fresh entity keeps the at-most-once invariant, but not exactly-once. */
  lemma SpawnPreservesAtMostOnce(a: ArenaIndex, hexes: map<Entity, Hex>, e: Entity)
    requires AtMostOnce(a, hexes) && e !in hexes
    ensures AtMostOnce(a, SpawnTracked(hexes, e))
  {
    forall h, x | h in a.index
      ensures BucketBound(a, SpawnTracked(hexes, e), h, x)
    {
      assert BucketBound(a, hexes, h, x);
    }
  }

  /**
   An entity spawned (record at the origin) whose first position also maps
   to the origin is not inserted by relocation: on a fresh index it is in no
   bucket, and removing it while it stays on the origin hex reports
   `EntityNotFound`. Its first move to another arena hex indexes it
   (`SpawnedAtOriginIndexedOnFirstMove`).
   */
  lemma SpawnAtOriginNotIndexed(e: Entity)
    ensures var a := DefaultIndex();
      var hexes := SpawnTracked(map[], e);
      var r := Relocate(a, e, hexes[e], Zero);
      && r.index == a
      && (forall h :: h in r.index.index ==> e !in r.index.index[h])
      && RemoveFromIndex(r.index, hexes, e).outcome == EntityNotFound
      && !ExactlyOnce(r.index, hexes)
  {
    var a := DefaultIndex();
    assert Zero in a.index;
  }

  /**
   The gap closes on the first move off the origin: a spawned entity that
   was never inserted is indexed exactly once as soon as it relocates to
   another arena hex.
   */
  lemma SpawnedAtOriginIndexedOnFirstMove(e: Entity, h: Hex)
    requires InArena(h) && h != Zero
    ensures var a := DefaultIndex();
      var hexes := SpawnTracked(map[], e);
      var r := Relocate(a, e, hexes[e], h);
      && r.hex == h
      && Count(r.index.index[h], e) == 1
      && ExactlyOnce(r.index, hexes[e := r.hex])
  {
  }

  /**
   Tracking as the doc comment on `ArenaHex` describes it, every entity
   carrying one being indexed: a spawned entity is recorded at its initial
   hex and inserted into that hex's bucket; an initial hex outside the arena
   leaves the entity untracked.
   */
  function Track(a: ArenaIndex, hexes: map<Entity, Hex>, e: Entity, initial: Hex): (r: (ArenaIndex, map<Entity, Hex>))
    requires e !in hexes
    ensures initial !in a.index ==> r == (a, hexes)
    ensures initial in a.index ==>
      r.1 == hexes[e := initial] && r.0.index == a.index[initial := a.index[initial] + [e]]
  {
    if initial !in a.index then (a, hexes)
    else (ArenaIndex(a.index[initial := a.index[initial] + [e]]), hexes[e := initial])
  }

  /** Tracking a fresh entity keeps every tracked entity exactly once in its bucket. */
  lemma TrackPreservesExactlyOnce(a: ArenaIndex, hexes: map<Entity, Hex>, e: Entity, initial: Hex)
    requires ExactlyOnce(a, hexes) && e !in hexes
    ensures var r := Track(a, hexes, e, initial); ExactlyOnce(r.0, r.1)
  {
    var r := Track(a, hexes, e, initial);
    if initial in a.index {
      forall h, x | h in r.0.index
        ensures BucketBound(r.0, r.1, h, x)
      {
        assert BucketBound(a, hexes, h, x);
        if h == initial {
          CountAppend(a.index[initial], [e], x);
          assert Count([e], x) == (if x == e then 1 else 0);
        }
      }
      forall x | x in r.1 ensures r.1[x] in r.0.index && x in r.0.index[r.1[x]] {
        if x != e && hexes[x] == initial {
          assert x in a.index[initial] + [e];
        }
      }
      assert e in a.index[initial] + [e];
    }
  }
}
