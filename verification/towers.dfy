/**
 Towers (src/tower.rs): the closed set of tower kinds, the tower record, the
 trigger event other systems raise against a tower, and the single-occupant
 placement map from hex to tower entity.

 The placement map (`tower_index`), the occupancy query `is_occupied`, the
 action table `actions()` and the consumer of `TriggerTowerEvent` belong to
 other revisions of the code. The map is modelled as `map<Hex, Entity>`, the
 occupancy answer is an input, and the action table is passed in where it
 is used.
 */
module Towers {
  import opened Base
  import opened Hexes

  /** The six kinds of tower. */
  datatype TowerKind = Bullet2 | Bullet3 | Bullet4 | Bullet6 | Explosion1 | Explosion2

  /** A placed tower: its kind and its rotation offset. */
  datatype Tower = Tower(kind: TowerKind, rotation: nat)

  /** What a tower does when triggered: shoot along a unit direction, or explode over a hex range. */
  datatype TowerAction = Shoot(direction: Hex) | Explode(range: nat)

  /** Raised against tower entity `target`, carrying the chain of towers that led to it. */
  datatype TriggerTowerEvent = TriggerTowerEvent(target: Entity, history: seq<Entity>)

  datatype PlaceTowerCommand = PlaceTowerCommand(tower: Tower, hex: Hex)

  /** A spawned tower entity, standing on `hex`. */
  datatype TowerEntity = TowerEntity(id: Entity, tower: Tower, hex: Hex)

  /** Result of applying a placement: the placement map, the spawned towers, and whether a warning was logged. */
  datatype Placement = Placement(towers: map<Hex, Entity>, spawned: seq<TowerEntity>, warned: bool)

  /** Every tower kind, six in all. */
  function AllTowerKinds(): (r: set<TowerKind>)
    ensures forall k :: k in r
    ensures |r| == 6
  {
    var r := {Bullet2, Bullet3, Bullet4, Bullet6, Explosion1, Explosion2};
    assert |{Bullet2, Bullet3}| == 2;
    assert |{Bullet2, Bullet3, Bullet4}| == 3;
    assert |{Bullet2, Bullet3, Bullet4, Bullet6}| == 4;
    assert |{Bullet2, Bullet3, Bullet4, Bullet6, Explosion1}| == 5;
    assert forall k :: k in r by {
      forall k ensures k in r {
        KindInDisplay(k);
      }
    }
    r
  }

  lemma KindInDisplay(k: TowerKind)
    ensures k in {Bullet2, Bullet3, Bullet4, Bullet6, Explosion1, Explosion2}
  {
    match k
    case Bullet2 =>
    case Bullet3 =>
    case Bullet4 =>
    case Bullet6 =>
    case Explosion1 =>
    case Explosion2 =>
  }

  /**
   `PlaceTowerCommand::apply`. `occupied` is the answer of `is_occupied` for
   the command's hex; `newId` is the id the world gives the spawned tower.
   */
  function PlaceTower(towers: map<Hex, Entity>, cmd: PlaceTowerCommand, occupied: bool, newId: Entity): (r: Placement)
    ensures occupied ==> r == Placement(towers, [], true)
    ensures !occupied ==> !r.warned && r.spawned == [TowerEntity(newId, cmd.tower, cmd.hex)]
    ensures !occupied ==> cmd.hex in r.towers && r.towers[cmd.hex] == newId
    ensures !occupied ==> r.towers.Keys == towers.Keys + {cmd.hex}
    ensures forall h :: h in towers && h != cmd.hex ==> h in r.towers && r.towers[h] == towers[h]
  {
    if occupied then Placement(towers, [], true)
    else Placement(towers[cmd.hex := newId], [TowerEntity(newId, cmd.tower, cmd.hex)], false)
  }

  /**
   The assumption under which placement is single-occupant: `is_occupied`
   reports exactly the hexes the placement map holds.
   */
  predicate OccupiedIsPlaced(towers: map<Hex, Entity>, hex: Hex, occupied: bool) {
    occupied == (hex in towers)
  }

  /** No two hexes hold the same tower entity. */
  predicate Injective(towers: map<Hex, Entity>) {
    forall h1, h2 :: h1 in towers && h2 in towers && h1 != h2 ==> towers[h1] != towers[h2]
  }

  /** Under the occupancy assumption, placement never overwrites a tower already on the map. */
  lemma PlaceNeverOverwrites(towers: map<Hex, Entity>, cmd: PlaceTowerCommand, occupied: bool, newId: Entity)
    requires OccupiedIsPlaced(towers, cmd.hex, occupied)
    ensures var r := PlaceTower(towers, cmd, occupied, newId);
      && towers.Keys <= r.towers.Keys
      && (forall h :: h in towers ==> r.towers[h] == towers[h])
      && (cmd.hex in towers <==> r.spawned == [])
  {
  }

  /** A fresh tower id keeps the placement map free of shared entities. */
  lemma PlaceKeepsInjective(towers: map<Hex, Entity>, cmd: PlaceTowerCommand, occupied: bool, newId: Entity)
    requires OccupiedIsPlaced(towers, cmd.hex, occupied)
    requires Injective(towers) && newId !in towers.Values
    ensures Injective(PlaceTower(towers, cmd, occupied, newId).towers)
  {
    var r := PlaceTower(towers, cmd, occupied, newId);
    forall h1, h2 | h1 in r.towers && h2 in r.towers && h1 != h2 ensures r.towers[h1] != r.towers[h2] {
      if h1 == cmd.hex && !occupied {
        assert towers[h2] in towers.Values;
      } else if h2 == cmd.hex && !occupied {
        assert towers[h1] in towers.Values;
      }
    }
  }

  /** Apply a queue of placement commands, the occupancy query answering from the map itself. */
  function PlaceAll(towers: map<Hex, Entity>, cmds: seq<PlaceTowerCommand>, newIds: seq<Entity>): (r: map<Hex, Entity>)
    requires |newIds| == |cmds|
    decreases |cmds|
  {
    if |cmds| == 0 then towers
    else
      var p := PlaceTower(towers, cmds[0], cmds[0].hex in towers, newIds[0]);
      PlaceAll(p.towers, cmds[1..], newIds[1..])
  }

  /**
   Over any queue of placements, a hex once holding a tower keeps that same
   tower, and every placed hex ends up on the map.
   */
  lemma {:induction false} PlaceAllKeepsFirstTower(towers: map<Hex, Entity>, cmds: seq<PlaceTowerCommand>, newIds: seq<Entity>)
    requires |newIds| == |cmds|
    ensures var r := PlaceAll(towers, cmds, newIds);
      && (forall h :: h in towers ==> h in r && r[h] == towers[h])
      && (forall i :: 0 <= i < |cmds| ==> cmds[i].hex in r)
    decreases |cmds|
  {
    if |cmds| > 0 {
      var p := PlaceTower(towers, cmds[0], cmds[0].hex in towers, newIds[0]);
      PlaceNeverOverwrites(towers, cmds[0], cmds[0].hex in towers, newIds[0]);
      PlaceAllKeepsFirstTower(p.towers, cmds[1..], newIds[1..]);
      var r := PlaceAll(towers, cmds, newIds);
      forall i | 0 <= i < |cmds| ensures cmds[i].hex in r {
        if i > 0 {
          assert cmds[1..][i - 1] == cmds[i];
        }
      }
    }
  }
}
