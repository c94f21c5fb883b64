/** Tower placement in the PLAYING branch of `mousePressEvent`. A left click
    builds an attack tower; a right click opens a menu whose outcome (attack,
    freeze or dismissed) the host supplies. */
module Placement {
  import opened Geometry
  import opened Levels
  import opened Entities

  /** What the right-click menu returned. */
  datatype MenuChoice = ChooseAttack | ChooseFreeze | Cancelled

  /** The first build zone strictly within ZONE_RADIUS of the click, or -1. */
  function FirstZone(zones: seq<Point>, click: Point): (k: int)
    ensures -1 <= k < |zones|
    ensures k >= 0 ==> Within(zones[k], click, ZONE_RADIUS)
    ensures forall j :: 0 <= j < |zones| && (k == -1 || j < k) ==> !Within(zones[j], click, ZONE_RADIUS)
  {
    if |zones| == 0 then -1
    else if Within(zones[0], click, ZONE_RADIUS) then 0
    else
      var k := FirstZone(zones[1..], click);
      assert forall j :: 1 <= j < |zones| ==> zones[1..][j - 1] == zones[j];
      if k == -1 then -1 else k + 1
  }

  /** Some tower stands strictly within OCCUPANCY_RADIUS of the zone. */
  predicate Occupied(towers: seq<Point>, zone: Point)
  {
    exists k :: 0 <= k < |towers| && Within(towers[k], zone, OCCUPANCY_RADIUS)
  }

  /** The zone a click at `click` would build on: the first zone near the click,
      provided the player can pay and that zone is free; -1 otherwise. Only the
      first zone near the click is considered (the source breaks out of its
      loop there, built or not). */
  function BuildSite(w: World, click: Point): (k: int)
    requires 1 <= w.level <= LEVEL_COUNT
    ensures -1 <= k < |LevelOf(w.level).buildZones|
  {
    var zones := LevelOf(w.level).buildZones;
    var k := FirstZone(zones, click);
    if w.money < TOWER_COST || k == -1 || Occupied(w.towers, zones[k]) then -1 else k
  }

  /** Left click while playing. */
  function PlaceAttackTower(w: World, click: Point): World
    requires 1 <= w.level <= LEVEL_COUNT
  {
    var zones := LevelOf(w.level).buildZones;
    var k := BuildSite(w, click);
    if k == -1 then w
    else w.(towers := w.towers + [zones[k]], towerTypes := w.towerTypes + [AttackTower],
            money := w.money - TOWER_COST)
  }

  /** Right click while playing, with the menu's outcome. When the site is
      valid the cost is debited whatever the menu returns, even when it is
      dismissed and no tower is built. */
  function PlaceChosenTower(w: World, click: Point, choice: MenuChoice): World
    requires 1 <= w.level <= LEVEL_COUNT
  {
    var zones := LevelOf(w.level).buildZones;
    var k := BuildSite(w, click);
    if k == -1 then w
    else
      var paid := w.(money := w.money - TOWER_COST);
      match choice
      case ChooseAttack => paid.(towers := w.towers + [zones[k]], towerTypes := w.towerTypes + [AttackTower])
      case ChooseFreeze => paid.(towers := w.towers + [zones[k]], towerTypes := w.towerTypes + [FreezeTower])
      case Cancelled => paid
  }

  /** A left click builds exactly when some build zone of the level is within
      ZONE_RADIUS of the click, the player has at least TOWER_COST and no tower
      occupies the first such zone; the tower goes on the zone anchor (not the
      click point) and exactly TOWER_COST is paid. Otherwise nothing changes,
      so the balance never goes negative. */
  lemma LeftClickRule(w: World, click: Point)
    requires 1 <= w.level <= LEVEL_COUNT
    ensures var zones := LevelOf(w.level).buildZones;
            var k := FirstZone(zones, click);
            var r := PlaceAttackTower(w, click);
            && (r != w <==> w.money >= TOWER_COST && k != -1 && !Occupied(w.towers, zones[k]))
            && (r != w ==> r == w.(towers := w.towers + [zones[k]], towerTypes := w.towerTypes + [AttackTower],
                                   money := w.money - TOWER_COST))
            && (w.money >= 0 ==> r.money >= 0)
  {
    var zones := LevelOf(w.level).buildZones;
    var k := FirstZone(zones, click);
    if w.money >= TOWER_COST && k != -1 && !Occupied(w.towers, zones[k]) {
      assert |PlaceAttackTower(w, click).towers| == |w.towers| + 1;
    }
  }

  /** A click farther than ZONE_RADIUS from every build zone changes nothing,
      with either button and whatever the menu would return. */
  lemma FarClickChangesNothing(w: World, click: Point, choice: MenuChoice)
    requires 1 <= w.level <= LEVEL_COUNT
    requires forall z :: z in LevelOf(w.level).buildZones ==> !Within(z, click, ZONE_RADIUS)
    ensures PlaceAttackTower(w, click) == w && PlaceChosenTower(w, click, choice) == w
  {
  }

  /** A right click on a valid site always costs TOWER_COST; only an attack or
      freeze choice adds a tower, of that kind, on the zone anchor. */
  lemma RightClickRule(w: World, click: Point, choice: MenuChoice)
    requires 1 <= w.level <= LEVEL_COUNT
    ensures var zones := LevelOf(w.level).buildZones;
            var k := FirstZone(zones, click);
            var r := PlaceChosenTower(w, click, choice);
            var ok := w.money >= TOWER_COST && k != -1 && !Occupied(w.towers, zones[k]);
            && (!ok ==> r == w)
            && (ok ==> r.money == w.money - TOWER_COST && r.money >= 0)
            && (ok && choice == Cancelled ==> r == w.(money := w.money - TOWER_COST))
            && (ok && choice == ChooseAttack ==>
                  r.towers == w.towers + [zones[k]] && r.towerTypes == w.towerTypes + [AttackTower])
            && (ok && choice == ChooseFreeze ==>
                  r.towers == w.towers + [zones[k]] && r.towerTypes == w.towerTypes + [FreezeTower])
  {
  }

  /** Placement keeps the game invariant. */
  lemma PlacementKeepsValid(w: World, click: Point, choice: MenuChoice)
    requires Valid(w) && 1 <= w.level
    ensures Valid(PlaceAttackTower(w, click)) && Valid(PlaceChosenTower(w, click, choice))
  {
  }
}
