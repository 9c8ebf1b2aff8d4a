/**
 Build mode (src/building.rs): the player's collection of unbuilt towers and
 the selected index, the number keys that select a tower, placement of the
 selected tower at the pointer hex, and the hexes highlighted as a preview
 of the selected tower's actions.

 The hex under the pointer, the occupancy answer and the key presses are
 inputs; the action table `TowerKind::actions` is a parameter.
 */
module Building {
  import opened Base
  import opened Hexes
  import opened Towers

  /** The game states build mode switches between. */
  datatype GameState = Running | Building

  /** `BuildingSettings`: collected towers and the index being built, if any. */
  datatype BuildingSettings = BuildingSettings(towers: seq<TowerKind>, selected: Option<nat>)

  /** Number of selection keys, `Digit1` to `Digit5`. */
  const KEY_COUNT: nat := 5

  /** `BuildingSettings::default()`: no towers, nothing selected. */
  function DefaultSettings(): (s: BuildingSettings)
    ensures |s.towers| == 0 && s.selected.None?
    ensures GetSelected(s).None?
  {
    BuildingSettings([], None)
  }

  /** `get_selected`: the selected kind, when the selected index lies inside the collection. */
  function GetSelected(s: BuildingSettings): (r: Option<TowerKind>)
    ensures r.Some? <==> s.selected.Some? && s.selected.value < |s.towers|
    ensures r.Some? ==> r.value == s.towers[s.selected.value]
  {
    match s.selected
    case None => None
    case Some(i) => if i < |s.towers| then Some(s.towers[i]) else None
  }

  /** `AddTowerCommand::apply`: the kind joins the end of the collection. */
  function AddTower(s: BuildingSettings, kind: TowerKind): (r: BuildingSettings)
    ensures |r.towers| == |s.towers| + 1 && r.towers[|s.towers|] == kind
    ensures r.towers[..|s.towers|] == s.towers && r.selected == s.selected
  {
    s.(towers := s.towers + [kind])
  }

  /** Adding a tower leaves the current selection as it was, and the new tower is selectable at the old length. */
  lemma AddTowerKeepsSelection(s: BuildingSettings, kind: TowerKind)
    ensures GetSelected(AddTower(s, kind)) == GetSelected(s) || (s.selected == Some(|s.towers|) && GetSelected(AddTower(s, kind)) == Some(kind))
    ensures GetSelected(AddTower(s, kind).(selected := Some(|s.towers|))) == Some(kind)
  {
  }

  /** What `place_building` does in one frame. */
  datatype PlaceOutcome = PlaceOutcome(
    settings: BuildingSettings,
    command: Option<PlaceTowerCommand>,
    buildingsUpdated: bool,
    nextState: Option<GameState>)

  /** `place_building` with the pointer on `pointer`; `occupied` is the index's answer for that hex. */
  function PlaceBuilding(s: BuildingSettings, pointer: Hex, occupied: bool): (r: PlaceOutcome)
    ensures occupied || GetSelected(s).None? <==> r == PlaceOutcome(s, None, false, None)
    ensures !occupied && GetSelected(s).Some? ==>
      && r.command == Some(PlaceTowerCommand(Tower(GetSelected(s).value, 0), pointer))
      && r.settings.towers == RemoveAt(s.towers, s.selected.value)
      && r.settings.selected.None?
      && r.buildingsUpdated
      && r.nextState == Some(Running)
  {
    if occupied then PlaceOutcome(s, None, false, None)
    else match s.selected
      case None => PlaceOutcome(s, None, false, None)
      case Some(i) =>
        if i >= |s.towers| then PlaceOutcome(s, None, false, None)
        else
          var cmd := PlaceTowerCommand(Tower(s.towers[i], 0), pointer);
          PlaceOutcome(BuildingSettings(RemoveAt(s.towers, i), None), Some(cmd), true, Some(Running))
  }

  /** Placing a tower spends exactly the queued kind from the collection, as a multiset. */
  lemma PlaceBuildingSpendsTower(s: BuildingSettings, pointer: Hex, occupied: bool)
    requires !occupied && GetSelected(s).Some?
    ensures var r := PlaceBuilding(s, pointer, occupied);
      multiset(r.settings.towers) + multiset{r.command.value.tower.kind} == multiset(s.towers)
  {
    var i := s.selected.value;
    assert s.towers == s.towers[..i] + [s.towers[i]] + s.towers[i + 1..];
  }

  /**
   The queued command, applied against a placement map that agrees with the
   occupancy answer, puts a tower of the selected kind with rotation 0 on the
   pointer hex.
   */
  lemma PlaceBuildingBuildsSelected(s: BuildingSettings, towers: map<Hex, Entity>, pointer: Hex, newId: Entity)
    requires GetSelected(s).Some? && pointer !in towers
    ensures var r := PlaceBuilding(s, pointer, false);
      var p := PlaceTower(towers, r.command.value, pointer in towers, newId);
      && p.towers[pointer] == newId
      && p.spawned == [TowerEntity(newId, Tower(GetSelected(s).value, 0), pointer)]
  {
  }

  // ---------------------------------------------------------------------
  // Selection by number key.
  // ---------------------------------------------------------------------

  /** The smallest key index from `i` on that was just pressed and names a tower of the collection. */
  function FirstSelectable(pressed: seq<bool>, n: nat, i: nat): (r: Option<nat>)
    requires i <= |pressed|
    ensures r.Some? ==> i <= r.value < |pressed| && r.value < n && pressed[r.value]
    ensures forall j :: i <= j < |pressed| && (r.None? || j < r.value) ==> !(pressed[j] && j < n)
    decreases |pressed| - i
  {
    if i == |pressed| then None
    else if pressed[i] && i < n then Some(i)
    else FirstSelectable(pressed, n, i + 1)
  }

  /** How many of the keys before index `stop` were just pressed. */
  function PressedBefore(pressed: seq<bool>, stop: nat): (c: nat)
    requires stop <= |pressed|
    ensures c <= stop
  {
    if stop == 0 then 0 else PressedBefore(pressed, stop - 1) + (if pressed[stop - 1] then 1 else 0)
  }

  /**
   `select_building`. `pressed[k]` says whether key `k + 1` was just pressed.
   Every pressed key visited writes a redraw event, even one without a tower;
   the first pressed key that names a tower is selected and ends the scan.
   */
  method SelectBuilding(s: BuildingSettings, state: GameState, pressed: seq<bool>)
    returns (s': BuildingSettings, next: Option<GameState>, redraws: nat)
    requires |pressed| == KEY_COUNT
    ensures s'.towers == s.towers
    ensures var f := FirstSelectable(pressed, |s.towers|, 0);
      && s'.selected == (if f.Some? then f else s.selected)
      && next == (if f.Some? && state != Building then Some(Building) else None)
      && redraws == PressedBefore(pressed, if f.Some? then f.value + 1 else KEY_COUNT)
  {
    s' := s;
    next := None;
    redraws := 0;
    var i := 0;
    while i < KEY_COUNT
      invariant 0 <= i <= KEY_COUNT
      invariant s' == s && next == None
      invariant FirstSelectable(pressed, |s.towers|, 0) == FirstSelectable(pressed, |s.towers|, i)
      invariant redraws == PressedBefore(pressed, i)
    {
      if !pressed[i] {
        i := i + 1;
        continue;
      }
      redraws := redraws + 1;
      if i >= |s.towers| {
        i := i + 1;
        continue;
      }
      s' := s.(selected := Some(i));
      if state != Building {
        next := Some(Building);
      }
      return;
    }
  }

  // ---------------------------------------------------------------------
  // Placement preview.
  // ---------------------------------------------------------------------

  /**
   The shoot ray from `h` on: `h`, `h + d`, `h + 2d`, ... for as long as the
   hexes stay in the arena. It ends because every step along a unit `d`
   moves one unit further along it, and the arena is bounded in every
   direction.
   */
  function ShootRay(h: Hex, d: Hex): (r: seq<Hex>)
    requires IsUnit(d)
    ensures |r| > 0 ==> r[0] == h
    ensures forall i :: 0 <= i < |r| ==> InArena(r[i])
    ensures !InArena(if |r| == 0 then h else Add(r[|r| - 1], d))
    decreases ARENA_RADIUS + 1 - Along(h, d)
  {
    if !InArena(h) then []
    else
      AlongInArena(h, d);
      AlongStep(h, d);
      [h] + ShootRay(Add(h, d), d)
  }

  /** Each hex of a shoot ray is one unit step past the one before it. */
  lemma {:induction false} ShootRaySteps(h: Hex, d: Hex, i: nat)
    requires IsUnit(d) && 0 < i < |ShootRay(h, d)|
    ensures ShootRay(h, d)[i] == Add(ShootRay(h, d)[i - 1], d)
    decreases i
  {
    var rest := ShootRay(Add(h, d), d);
    assert ShootRay(h, d) == [h] + rest;
    if i > 1 {
      ShootRaySteps(Add(h, d), d, i - 1);
    }
  }

  /** The `TowerAction::Shoot` preview loop: highlight from `p + d` until the ray leaves the arena. */
  method ShootPreview(p: Hex, d: Hex) returns (hs: seq<Hex>)
    requires IsUnit(d)
    ensures hs == ShootRay(Add(p, d), d)
  {
    hs := [];
    var hex := Add(p, d);
    while InArena(hex)
      invariant hs + ShootRay(hex, d) == ShootRay(Add(p, d), d)
      decreases ARENA_RADIUS + 1 - Along(hex, d)
    {
      assert ShootRay(hex, d) == [hex] + ShootRay(Add(hex, d), d);
      AlongInArena(hex, d);
      AlongStep(hex, d);
      hs := hs + [hex];
      hex := Add(hex, d);
    }
  }

  /** The hexes of `s` that lie in the arena, in order. */
  function ArenaOnly(s: seq<Hex>): (r: seq<Hex>)
    ensures forall h :: h in r <==> h in s && InArena(h)
    ensures NoDup(s) ==> NoDup(r)
  {
    if |s| == 0 then []
    else
      var rest := ArenaOnly(s[1..]);
      if InArena(s[0]) then [s[0]] + rest else rest
  }

  /** The `TowerAction::Explode` preview: the disk of `range` around `p`, cut to the arena, each hex once. */
  function ExplodePreview(p: Hex, range: nat): (r: seq<Hex>)
    ensures NoDup(r)
    ensures forall h :: h in r <==> Distance(h, p) <= range && InArena(h)
  {
    ArenaOnly(DiskSeq(p, range))
  }

  /** Every direction a shoot action names is a unit step, so its preview ends. */
  predicate UnitShots(actions: seq<TowerAction>) {
    forall i :: 0 <= i < |actions| && actions[i].Shoot? ==> IsUnit(actions[i].direction)
  }

  /** The preview of one action. */
  function ActionPreview(p: Hex, a: TowerAction): (r: seq<Hex>)
    requires a.Shoot? ==> IsUnit(a.direction)
  {
    match a
    case Shoot(d) => ShootRay(Add(p, d), d)
    case Explode(range) => ExplodePreview(p, range)
  }

  /** The previews of a list of actions, one after the other. */
  function Previews(p: Hex, actions: seq<TowerAction>): (r: seq<Hex>)
    requires UnitShots(actions)
  {
    if |actions| == 0 then []
    else ActionPreview(p, actions[0]) + Previews(p, actions[1..])
  }

  /** A hex is highlighted exactly when the preview of one of the actions highlights it. */
  lemma {:induction false} PreviewsCover(p: Hex, actions: seq<TowerAction>, h: Hex)
    requires UnitShots(actions)
    ensures h in Previews(p, actions) <==> exists i :: 0 <= i < |actions| && h in ActionPreview(p, actions[i])
    decreases |actions|
  {
    if |actions| > 0 {
      var tail := actions[1..];
      assert UnitShots(tail) by {
        forall i | 0 <= i < |tail| && tail[i].Shoot? ensures IsUnit(tail[i].direction) {
          assert tail[i] == actions[i + 1];
        }
      }
      PreviewsCover(p, tail, h);
      if exists i :: 0 <= i < |tail| && h in ActionPreview(p, tail[i]) {
        var i :| 0 <= i < |tail| && h in ActionPreview(p, tail[i]);
        assert tail[i] == actions[i + 1];
      }
      if exists i :: 0 <= i < |actions| && h in ActionPreview(p, actions[i]) {
        var i :| 0 <= i < |actions| && h in ActionPreview(p, actions[i]);
        if i > 0 {
          assert tail[i - 1] == actions[i];
        }
      }
    }
  }

  /**
   `redraw_placement`: the hexes highlighted for the selected tower at the
   pointer, none when nothing is selected. `actions` is `TowerKind::actions`.
   */
  method RedrawPlacement(s: BuildingSettings, pointer: Hex, actions: TowerKind -> seq<TowerAction>)
    returns (hs: seq<Hex>)
    requires GetSelected(s).Some? ==> UnitShots(actions(GetSelected(s).value))
    ensures GetSelected(s).None? ==> hs == []
    ensures GetSelected(s).Some? ==> hs == Previews(pointer, actions(GetSelected(s).value))
  {
    hs := [];
    var kind := GetSelected(s);
    if kind.None? {
      return;
    }
    var acts := actions(kind.value);
    var i := 0;
    while i < |acts|
      invariant 0 <= i <= |acts|
      invariant hs + Previews(pointer, acts[i..]) == Previews(pointer, acts)
    {
      PreviewsStep(pointer, acts, i);
      var more := PreviewAction(pointer, acts[i]);
      hs := hs + more;
      i := i + 1;
    }
    assert acts[i..] == [];
  }

  /** Every highlighted hex lies in the arena. */
  lemma PreviewsInArena(p: Hex, actions: seq<TowerAction>, h: Hex)
    requires UnitShots(actions) && h in Previews(p, actions)
    ensures InArena(h)
  {
    PreviewsCover(p, actions, h);
    var i :| 0 <= i < |actions| && h in ActionPreview(p, actions[i]);
    match actions[i]
    case Shoot(d) =>
    case Explode(range) =>
  }

  /** The highlight of one action, the shoot case by its loop. */
  method PreviewAction(p: Hex, a: TowerAction) returns (hs: seq<Hex>)
    requires a.Shoot? ==> IsUnit(a.direction)
    ensures hs == ActionPreview(p, a)
  {
    match a {
      case Shoot(d) =>
        hs := ShootPreview(p, d);
      case Explode(range) =>
        hs := ExplodePreview(p, range);
    }
  }

  lemma PreviewsStep(p: Hex, actions: seq<TowerAction>, i: nat)
    requires UnitShots(actions) && i < |actions|
    ensures UnitShots(actions[i..])
    ensures Previews(p, actions[i..]) == ActionPreview(p, actions[i]) + Previews(p, actions[i + 1..])
  {
    assert actions[i..][0] == actions[i] && actions[i..][1..] == actions[i + 1..];
  }
}
