/** The simulation half of the GameWindow widget: its fields, updated in place
    by the three timer slots and the mouse handler. Each method runs the
    source's loops and is proved to leave the fields as the corresponding
    function of the Session module says. */
module Window {
  import opened Geometry
  import opened Levels
  import opened Entities
  import opened Movement
  import opened Freezing
  import opened Bullets
  import opened Combat
  import Spawner
  import Placement
  import Session

  class GameWindow {
    var currentState: GameState
    var currentLevel: int
    var playerHealth: int
    var playerMoney: int
    var enemiesSpawned: int
    /** Whether the spawn timer is running. */
    var spawnActive: bool

    var enemies: seq<Point>
    var enemyHealth: seq<int>
    var enemyPathIndex: seq<int>
    var enemyFreezeEnd: seq<int>
    var enemyLastFreezeTime: seq<int>
    var towers: seq<Point>
    var towerTypes: seq<TowerType>
    var bullets: seq<Bullet>

    /** The fields as one value. */
    function Snapshot(): World
      reads this
    {
      World(currentState, currentLevel, playerHealth, playerMoney, enemiesSpawned, spawnActive,
            enemies, enemyHealth, enemyPathIndex, enemyFreezeEnd, enemyLastFreezeTime,
            towers, towerTypes, bullets)
    }

    ghost predicate Valid()
      reads this
    {
      Entities.Valid(Snapshot())
    }

    constructor ()
      ensures Valid() && Snapshot() == Session.Initial()
    {
      currentState, currentLevel := Menu, 0;
      playerHealth, playerMoney, enemiesSpawned := PLAYER_MAX_HEALTH, INITIAL_MONEY, 0;
      spawnActive := false;
      enemies, enemyHealth, enemyPathIndex, enemyFreezeEnd, enemyLastFreezeTime := [], [], [], [], [];
      towers, towerTypes, bullets := [], [], [];
    }

    /** The spawn timer's slot. */
    method SpawnEnemy()
      requires Valid() && 1 <= currentLevel <= LEVEL_COUNT
      modifies this`enemies, this`enemyHealth, this`enemyPathIndex, this`enemyFreezeEnd, this`enemyLastFreezeTime,
               this`enemiesSpawned, this`spawnActive
      ensures Valid() && Snapshot() == Spawner.Spawn(old(Snapshot()))
    {
      Spawner.SpawnKeepsValid(Snapshot());
      var lvl := LevelOf(currentLevel);
      if enemiesSpawned >= lvl.totalEnemies {
        spawnActive := false;
        return;
      }
      AppendEnemy(lvl.path[0], lvl.enemyHealth);
      enemiesSpawned := enemiesSpawned + 1;
    }

    /** The five appends of `spawnEnemy`: a new enemy at `pos` with `health`,
        on segment 0 and never frozen. */
    method AppendEnemy(pos: Point, health: int)
      modifies this`enemies, this`enemyHealth, this`enemyPathIndex, this`enemyFreezeEnd, this`enemyLastFreezeTime
      ensures enemies == old(enemies) + [pos] && enemyHealth == old(enemyHealth) + [health]
      ensures enemyPathIndex == old(enemyPathIndex) + [0] && enemyFreezeEnd == old(enemyFreezeEnd) + [0]
      ensures enemyLastFreezeTime == old(enemyLastFreezeTime) + [0]
    {
      enemies := enemies + [pos];
      enemyHealth := enemyHealth + [health];
      enemyPathIndex := enemyPathIndex + [0];
      enemyFreezeEnd := enemyFreezeEnd + [0];
      enemyLastFreezeTime := enemyLastFreezeTime + [0];
    }

    /** The five scalar assignments that open both `startLevel` and `resetGame`. */
    method SetSession(state: GameState, level: int)
      modifies this`currentState, this`currentLevel, this`playerHealth, this`playerMoney, this`enemiesSpawned
      ensures currentState == state && currentLevel == level
      ensures playerHealth == PLAYER_MAX_HEALTH && playerMoney == INITIAL_MONEY && enemiesSpawned == 0
    {
      currentState := state;
      currentLevel := level;
      playerHealth := PLAYER_MAX_HEALTH;
      playerMoney := INITIAL_MONEY;
      enemiesSpawned := 0;
    }

    /** The eight `clear()` calls shared by `startLevel` and `resetGame`. */
    method ClearEntities()
      modifies this`enemies, this`enemyHealth, this`enemyPathIndex, this`enemyFreezeEnd,
               this`enemyLastFreezeTime, this`towers, this`towerTypes, this`bullets
      ensures enemies == [] && enemyHealth == [] && enemyPathIndex == [] && enemyFreezeEnd == []
      ensures enemyLastFreezeTime == [] && towers == [] && towerTypes == [] && bullets == []
    {
      enemies := [];
      enemyHealth := [];
      enemyPathIndex := [];
      enemyFreezeEnd := [];
      enemyLastFreezeTime := [];
      towers := [];
      towerTypes := [];
      bullets := [];
    }

    method StartLevel(lv: int)
      requires Valid()
      modifies this
      ensures Valid() && Snapshot() == Session.StartLevel(old(Snapshot()), lv)
    {
      if lv < 1 || lv > LEVEL_COUNT {
        currentState := GameOver;
        return;
      }
      SetSession(Playing, lv);
      ClearEntities();
      spawnActive := true;
      Session.StartLevelSpec(old(Snapshot()), Snapshot(), lv);
    }

    method ResetGame()
      modifies this
      ensures Valid() && Snapshot() == Session.ResetGame(old(Snapshot()))
    {
      SetSession(Menu, 0);
      ClearEntities();
      Session.ResetSpec(old(Snapshot()));
    }

    /** The update timer's slot. */
    method UpdateGame(now: int, move: Mover)
      requires Valid()
      modifies this`enemies, this`enemyHealth, this`enemyPathIndex, this`enemyFreezeEnd, this`enemyLastFreezeTime,
               this`playerHealth, this`bullets, this`currentState
      ensures Valid() && Snapshot() == Session.UpdateGame(old(Snapshot()), now, move)
    {
      if currentState != Playing {
        return;
      }
      ghost var w0 := Snapshot();
      Session.UpdateGameSpec(w0, now, move);
      var lvl := LevelOf(currentLevel);
      MoveEnemies(lvl, now, move);
      ApplyFreezeTowers(now);
      ExpireBullets(now);
      var allSpawned := enemiesSpawned >= lvl.totalEnemies;
      var noEnemiesLeft := |enemies| == 0;
      if allSpawned && noEnemiesLeft && playerHealth > 0 {
        currentState := LevelCompleted;
      }
      if playerHealth <= 0 {
        currentState := GameOver;
      }
    }

    /** The enemy loop of `updateGame`, removal and `i--` included. */
    method MoveEnemies(lvl: Level, now: int, move: Mover)
      requires Aligned(Snapshot()) && PathIndicesOk(Snapshot(), lvl.path)
      modifies this`enemies, this`enemyHealth, this`enemyPathIndex, this`enemyFreezeEnd, this`enemyLastFreezeTime, this`playerHealth
      ensures Snapshot() == MovePass(old(Snapshot()), lvl, now, move)
    {
      ghost var w0 := Snapshot();
      var i := 0;
      while i < |enemies|
        invariant 0 <= i <= |enemies|
        invariant Aligned(Snapshot()) && PathIndicesOk(Snapshot(), lvl.path)
        invariant MoveFrom(Snapshot(), lvl, now, move, i) == MovePass(w0, lvl, now, move)
        decreases |enemies| - i
      {
        ghost var before := Snapshot();
        var arrived := MoveEnemy(lvl, now, move, i);
        assert MoveFrom(before, lvl, now, move, i) == MoveFrom(Snapshot(), lvl, now, move, if arrived then i else i + 1);
        if arrived {
          i := i - 1;
        }
        i := i + 1;
      }
    }

    /** The body of the enemy loop on enemy i; `arrived` reports that the enemy
        reached the last waypoint and was removed. */
    method MoveEnemy(lvl: Level, now: int, move: Mover, i: int) returns (arrived: bool)
      requires Aligned(Snapshot()) && PathIndicesOk(Snapshot(), lvl.path) && 0 <= i < |enemies|
      modifies this`enemies, this`enemyHealth, this`enemyPathIndex, this`enemyFreezeEnd, this`enemyLastFreezeTime, this`playerHealth
      ensures arrived == Arrives(old(Snapshot()), lvl, now, i)
      ensures Snapshot() == MoveStep(old(Snapshot()), lvl, now, move, i)
    {
      assert Rows(Snapshot())[i] == EnemyRow(enemies[i], enemyHealth[i], enemyPathIndex[i],
                                             enemyFreezeEnd[i], enemyLastFreezeTime[i]);
      arrived := false;
      if enemyFreezeEnd[i] > now {
        return;
      }
      var idx := enemyPathIndex[i];
      var target := lvl.path[idx + 1];
      if Within(enemies[i], target, ARRIVAL_RADIUS) {
        if idx + 1 < |lvl.path| - 1 {
          enemyPathIndex := enemyPathIndex[i := idx + 1];
        } else {
          playerHealth := if playerHealth - BASE_DAMAGE > 0 then playerHealth - BASE_DAMAGE else 0;
          RemoveEnemyRow(i);
          arrived := true;
        }
      } else {
        enemies := enemies[i := move(enemies[i], target, lvl.enemySpeed)];
      }
    }

    /** The freeze-tower loops of `updateGame`. */
    method ApplyFreezeTowers(now: int)
      requires Aligned(Snapshot())
      modifies this`enemyFreezeEnd, this`enemyLastFreezeTime
      ensures Snapshot() == FreezePass(old(Snapshot()), now)
    {
      ghost var w0 := Snapshot();
      var i := 0;
      while i < |towers|
        invariant 0 <= i <= |towers|
        invariant Aligned(Snapshot()) && SameOutsideStamps(Snapshot(), w0)
        invariant FreezeFrom(Snapshot(), now, i) == FreezePass(w0, now)
      {
        if towerTypes[i] == FreezeTower {
          FreezeInRange(i, now);
        }
        i := i + 1;
      }
    }

    /** The inner loop for freeze tower i: it freezes every enemy it reaches
        that is neither frozen nor inside its protection window. */
    method FreezeInRange(i: int, now: int)
      requires Aligned(Snapshot()) && 0 <= i < |towers|
      modifies this`enemyFreezeEnd, this`enemyLastFreezeTime
      ensures Snapshot() == FreezeByTower(old(Snapshot()), i, now, 0)
    {
      ghost var wt := Snapshot();
      var towerPos := towers[i];
      var j := 0;
      while j < |enemies|
        invariant 0 <= j <= |enemies|
        invariant Aligned(Snapshot()) && SameOutsideStamps(Snapshot(), wt)
        invariant FreezeByTower(Snapshot(), i, now, j) == FreezeByTower(wt, i, now, 0)
      {
        var inRange := Within(towerPos, enemies[j], TOWER_RANGE);
        var notFreezing := enemyFreezeEnd[j] <= now;
        var canFreeze := now - enemyLastFreezeTime[j] > FREEZE_PROTECTION;
        if inRange && notFreezing && canFreeze {
          enemyFreezeEnd := enemyFreezeEnd[j := now + FREEZE_DURATION];
          enemyLastFreezeTime := enemyLastFreezeTime[j := now];
        }
        j := j + 1;
      }
    }

    /** The bullet rebuild of `updateGame`. */
    method ExpireBullets(now: int)
      modifies this`bullets
      ensures Snapshot() == old(Snapshot()).(bullets := LiveBullets(old(bullets), now))
    {
      var activeBullets: seq<Bullet> := [];
      var k := 0;
      while k < |bullets|
        invariant 0 <= k <= |bullets|
        invariant activeBullets == LiveBullets(bullets[..k], now)
      {
        assert bullets[..k + 1][..k] == bullets[..k];
        if now - bullets[k].startTime < BULLET_LIFETIME {
          activeBullets := activeBullets + [bullets[k]];
        }
        k := k + 1;
      }
      assert bullets[..|bullets|] == bullets;
      bullets := activeBullets;
    }

    /** Drops enemy i from all five vectors, as both removal sites do. */
    method RemoveEnemyRow(i: int)
      requires Aligned(Snapshot()) && 0 <= i < |enemies|
      modifies this`enemies, this`enemyHealth, this`enemyPathIndex, this`enemyFreezeEnd, this`enemyLastFreezeTime
      ensures Snapshot() == RemoveEnemy(old(Snapshot()), i)
    {
      enemies := RemoveAt(enemies, i);
      enemyHealth := RemoveAt(enemyHealth, i);
      enemyPathIndex := RemoveAt(enemyPathIndex, i);
      enemyFreezeEnd := RemoveAt(enemyFreezeEnd, i);
      enemyLastFreezeTime := RemoveAt(enemyLastFreezeTime, i);
    }

    /** The nearest-enemy scan of `handleTowerAttacks` for a tower at towerPos. */
    method FindTarget(towerPos: Point) returns (target: int)
      ensures target == Target(towerPos, enemies)
    {
      target := -1;
      var minDist := RANGE_SQ;
      var j := 0;
      while j < |enemies|
        invariant 0 <= j <= |enemies|
        invariant (target, minDist) == Scan(towerPos, enemies, j)
      {
        var dist := DistSq(towerPos, enemies[j]);
        if dist < minDist {
          minDist := dist;
          target := j;
        }
        j := j + 1;
      }
    }

    /** The attack timer's slot. */
    method HandleTowerAttacks(now: int)
      requires Valid()
      modifies this`enemies, this`enemyHealth, this`enemyPathIndex, this`enemyFreezeEnd, this`enemyLastFreezeTime,
               this`bullets, this`playerMoney
      ensures Valid() && Snapshot() == Session.HandleTowerAttacks(old(Snapshot()), now)
    {
      if currentState != Playing {
        return;
      }
      ghost var w0 := Snapshot();
      Session.HandleTowerAttacksSpec(w0, now);
      var i := 0;
      while i < |towers|
        invariant 0 <= i <= |towers|
        invariant Aligned(Snapshot())
        invariant AttackFrom(Snapshot(), now, i) == AttackPass(w0, now)
      {
        TowerAttack(i, now);
        i := i + 1;
      }
    }

    /** The body of the tower loop: tower i, if it is an attack tower, shoots
        the nearest enemy strictly inside its range. */
    method TowerAttack(i: int, now: int)
      requires Aligned(Snapshot()) && 0 <= i < |towers|
      modifies this`enemies, this`enemyHealth, this`enemyPathIndex, this`enemyFreezeEnd, this`enemyLastFreezeTime,
               this`bullets, this`playerMoney
      ensures Snapshot() == AttackStep(old(Snapshot()), now, i)
    {
      if towerTypes[i] == AttackTower {
        var target := FindTarget(towers[i]);
        if target != -1 {
          bullets := bullets + [Bullet(towers[i], enemies[target], now)];
          enemyHealth := enemyHealth[target := enemyHealth[target] - TOWER_DAMAGE];
          if enemyHealth[target] <= 0 {
            RemoveEnemyRow(target);
            playerMoney := playerMoney + BOUNTY;
          }
        }
      }
    }

    /** Whether a tower stands strictly within OCCUPANCY_RADIUS of the zone
        (the `hasTower` scan of both placement branches). */
    method HasTower(zone: Point) returns (hasTower: bool)
      ensures hasTower == Placement.Occupied(towers, zone)
    {
      hasTower := false;
      var j := 0;
      while j < |towers|
        invariant 0 <= j <= |towers|
        invariant forall m :: 0 <= m < j ==> !Within(towers[m], zone, OCCUPANCY_RADIUS)
      {
        if Within(towers[j], zone, OCCUPANCY_RADIUS) {
          hasTower := true;
          return;
        }
        j := j + 1;
      }
    }

    /** The zone loop shared by both placement branches: the first build zone
        strictly within ZONE_RADIUS of the click while the player can pay,
        provided no tower occupies it; -1 when the loop finds none or the zone
        it stops at is taken. */
    method FindBuildSite(pos: Point) returns (k: int)
      requires 1 <= currentLevel <= LEVEL_COUNT
      ensures k == Placement.BuildSite(Snapshot(), pos)
    {
      var zones := LevelOf(currentLevel).buildZones;
      var z := 0;
      while z < |zones|
        invariant 0 <= z <= |zones|
        invariant forall m :: 0 <= m < z ==> !(Within(zones[m], pos, ZONE_RADIUS) && playerMoney >= TOWER_COST)
      {
        if Within(zones[z], pos, ZONE_RADIUS) && playerMoney >= TOWER_COST {
          assert z == Placement.FirstZone(zones, pos);
          var hasTower := HasTower(zones[z]);
          k := if hasTower then -1 else z;
          return;
        }
        z := z + 1;
      }
      k := -1;
    }

    /** A left click while playing. */
    method PlaceAttackTower(pos: Point)
      requires Valid() && currentState == Playing
      modifies this`towers, this`towerTypes, this`playerMoney
      ensures Valid() && Snapshot() == Placement.PlaceAttackTower(old(Snapshot()), pos)
    {
      Placement.PlacementKeepsValid(Snapshot(), pos, Placement.Cancelled);
      var k := FindBuildSite(pos);
      if k != -1 {
        var zone := LevelOf(currentLevel).buildZones[k];
        towers := towers + [zone];
        towerTypes := towerTypes + [AttackTower];
        playerMoney := playerMoney - TOWER_COST;
      }
    }

    /** A right click while playing; `choice` is what the tower menu returned. */
    method PlaceChosenTower(pos: Point, choice: Placement.MenuChoice)
      requires Valid() && currentState == Playing
      modifies this`towers, this`towerTypes, this`playerMoney
      ensures Valid() && Snapshot() == Placement.PlaceChosenTower(old(Snapshot()), pos, choice)
    {
      Placement.PlacementKeepsValid(Snapshot(), pos, choice);
      var k := FindBuildSite(pos);
      if k != -1 {
        var zone := LevelOf(currentLevel).buildZones[k];
        if choice == Placement.ChooseAttack {
          towers := towers + [zone];
          towerTypes := towerTypes + [AttackTower];
        } else if choice == Placement.ChooseFreeze {
          towers := towers + [zone];
          towerTypes := towerTypes + [FreezeTower];
        }
        playerMoney := playerMoney - TOWER_COST;
      }
    }

    /** `mousePressEvent`. */
    method MousePressEvent(c: Session.Click)
      requires Valid()
      modifies this
      ensures Valid() && Snapshot() == Session.Press(old(Snapshot()), c)
    {
      if currentState == Menu {
        if c.onStart {
          StartLevel(1);
        }
      } else if currentState == Playing {
        if c.button == Session.LeftButton {
          PlaceAttackTower(c.pos);
        } else if c.button == Session.RightButton {
          PlaceChosenTower(c.pos, c.menu);
        }
      } else if currentState == LevelCompleted {
        if c.onNextLevel {
          if currentLevel < LEVEL_COUNT {
            StartLevel(currentLevel + 1);
          } else {
            currentState := Victory;
          }
        }
      } else {
        ResetGame();
      }
    }
  }
}
