/** The session state machine of GameWindow: `startLevel`, `resetGame`, the
    per-tick `updateGame` and its end-of-tick check, and the screen-dependent
    handling of mouse presses. */
module Session {
  import opened Geometry
  import opened Levels
  import opened Entities
  import opened Movement
  import opened Freezing
  import opened Bullets
  import opened Combat
  import opened Placement

  /** The state a GameWindow is constructed in: the menu, no level, default
      health and money, no entities, spawn timer not started. */
  function Initial(): (w: World)
    ensures Valid(w) && w.state == Menu && w.level == 0 && !w.spawnActive
  {
    World(Menu, 0, PLAYER_MAX_HEALTH, INITIAL_MONEY, 0, false, [], [], [], [], [], [], [], [])
  }

  /** `startLevel(lv)`. */
  function StartLevel(w: World, lv: int): World
  {
    if lv < 1 || lv > LEVEL_COUNT then w.(state := GameOver)
    else World(Playing, lv, PLAYER_MAX_HEALTH, INITIAL_MONEY, 0, true, [], [], [], [], [], [], [], [])
  }

  /** `resetGame`. The spawn timer is not stopped, so its flag is kept. */
  function ResetGame(w: World): World
  {
    World(Menu, 0, PLAYER_MAX_HEALTH, INITIAL_MONEY, 0, w.spawnActive, [], [], [], [], [], [], [], [])
  }

  /** Starting a level outside 1..LEVEL_COUNT only moves to GAME_OVER. Starting
      a valid level gives a fresh session at that level, with spawning on,
      whatever state it is started from. */
  lemma StartLevelSpec(w: World, w': World, lv: int)
    ensures (lv < 1 || lv > LEVEL_COUNT) ==> StartLevel(w, lv) == w.(state := GameOver)
    ensures 1 <= lv <= LEVEL_COUNT ==>
      var r := StartLevel(w, lv);
      && r == StartLevel(w', lv)
      && r.state == Playing && r.level == lv && r.health == PLAYER_MAX_HEALTH && r.money == INITIAL_MONEY
      && r.spawned == 0 && r.spawnActive && |r.enemies| == 0 && |r.towers| == 0 && |r.bullets| == 0
      && Valid(r)
  {
  }

  /** A reset followed by starting level 1 is the same as starting level 1
      from any state, in particular from a newly constructed window. */
  lemma ResetThenStart(w: World, w': World)
    ensures StartLevel(ResetGame(w), 1) == StartLevel(w', 1)
    ensures StartLevel(ResetGame(w), 1) == StartLevel(Initial(), 1)
  {
  }

  /** A reset returns to the menu with no level and default health and money,
      and keeps the invariant; it does not stop a running spawn timer, so
      afterwards the timer may fire with no current level. */
  lemma ResetSpec(w: World)
    ensures var r := ResetGame(w);
      && Valid(r) && r.state == Menu && r.level == 0
      && r.health == PLAYER_MAX_HEALTH && r.money == INITIAL_MONEY && r.spawned == 0
      && |r.enemies| == 0 && |r.towers| == 0 && |r.bullets| == 0
      && r.spawnActive == w.spawnActive
  {
  }

  /** The end-of-tick check: level complete when the quota is spawned, no
      enemy is left and the player is alive; game over whenever health is at
      0 or below, which overrides level completion in the same tick. */
  function EndOfTick(w: World): (s: GameState)
    requires 1 <= w.level <= LEVEL_COUNT
    ensures w.health <= 0 ==> s == GameOver
    ensures w.health > 0 ==>
      (s == LevelCompleted <==>
         (w.state == LevelCompleted || (w.spawned >= LevelOf(w.level).totalEnemies && |w.enemies| == 0)))
    ensures s == w.state || s == LevelCompleted || s == GameOver
  {
    var done := w.spawned >= LevelOf(w.level).totalEnemies && |w.enemies| == 0 && w.health > 0;
    var s := if done then LevelCompleted else w.state;
    if w.health <= 0 then GameOver else s
  }

  /** One `updateGame` tick at time `now`: movement, freezing, bullet expiry,
      then the end-of-tick check. Outside PLAYING nothing happens. */
  function UpdateGame(w: World, now: int, move: Mover): World
    requires Valid(w)
  {
    if w.state != Playing then w
    else
      var lvl := LevelOf(w.level);
      var moved := MovePass(w, lvl, now, move);
      var frozen := FreezePass(moved, now);
      var swept := frozen.(bullets := LiveBullets(frozen.bullets, now));
      swept.(state := EndOfTick(swept))
  }

  /** Enemy k of r is the surviving row `row`: same position, health and path
      index, and either the same freeze stamps or those of a freeze at `now`. */
  predicate Survives(r: World, k: int, row: EnemyRow, now: int)
    requires Aligned(r) && 0 <= k < |r.enemies|
  {
    && r.enemies[k] == row.pos && r.enemyHealth[k] == row.health && r.enemyPathIndex[k] == row.pathIndex
    && ((r.enemyFreezeEnd[k] == row.freezeEnd && r.enemyLastFreezeTime[k] == row.lastFreeze)
        || (r.enemyFreezeEnd[k] == now + FREEZE_DURATION && r.enemyLastFreezeTime[k] == now))
  }

  /** A tick keeps the invariant; the player loses exactly 15 health per
      enemy that reaches the end (floored at 0) and gains no money for it;
      towers and the spawn counter are untouched; only live bullets remain. */
  lemma UpdateGameSpec(w: World, now: int, move: Mover)
    requires Valid(w) && w.state == Playing
    ensures var lvl := LevelOf(w.level);
      var r := UpdateGame(w, now, move);
      && Valid(r)
      && r.health == Damaged(w.health, Arrivals(lvl, now, Rows(w)))
      && |r.enemies| == |w.enemies| - Arrivals(lvl, now, Rows(w))
      && r.money == w.money && r.spawned == w.spawned && r.level == w.level
      && r.towers == w.towers && r.towerTypes == w.towerTypes
      && r.bullets == LiveBullets(w.bullets, now)
      && RowsOnPath(Rows(w), lvl.path)
      && |r.enemies| == |Settle(lvl, now, move, Rows(w))|
      && (forall k :: 0 <= k < |r.enemies| ==> Survives(r, k, Settle(lvl, now, move, Rows(w))[k], now))
  {
    var lvl := LevelOf(w.level);
    MovePassSpec(w, lvl, now, move);
    var moved := MovePass(w, lvl, now, move);
    var frozen := FreezePass(moved, now);
    FreezePassSpec(moved, now);
    var settled := Settle(lvl, now, move, Rows(w));
    forall k | 0 <= k < |frozen.enemies|
      ensures Survives(frozen, k, settled[k], now)
    {
      assert Rows(moved)[k] == settled[k];
      if FreezesFrom(moved, now, k, 0) {
        assert FrozenAt(frozen, k, now);
      } else {
        assert StampsKept(moved, frozen, k);
      }
    }
    assert EnemiesAlive(frozen) && PathIndicesOk(frozen, lvl.path) by {
      assert frozen.enemies == moved.enemies && frozen.enemyHealth == moved.enemyHealth;
      assert frozen.enemyPathIndex == moved.enemyPathIndex;
    }
  }

  /** The end of a tick that starts in PLAYING: the level is complete exactly
      when the quota has been spawned, no enemy is left and the player is
      alive; the game is over exactly when health has reached 0; otherwise
      play goes on. */
  lemma UpdateGameOutcome(w: World, now: int, move: Mover)
    requires Valid(w) && w.state == Playing
    ensures var r := UpdateGame(w, now, move);
      && r.level == w.level
      && (r.state == LevelCompleted <==>
            r.spawned >= LevelOf(w.level).totalEnemies && |r.enemies| == 0 && r.health > 0)
      && (r.state == GameOver <==> r.health <= 0)
      && (r.state == Playing || r.state == LevelCompleted || r.state == GameOver)
  {
    UpdateGameSpec(w, now, move);
  }

  /** Enough arrivals in one tick end the game, even if the same tick also
      empties the field after the last spawn: with 100 health, seven arrivals
      (105 damage) leave 0 health and GAME_OVER, not LEVEL_COMPLETED. */
  lemma ArrivalsEndTheGame(w: World, now: int, move: Mover)
    requires Valid(w) && w.state == Playing
    requires BASE_DAMAGE * Arrivals(LevelOf(w.level), now, Rows(w)) >= w.health
    ensures UpdateGame(w, now, move).health == 0
    ensures UpdateGame(w, now, move).state == GameOver
  {
    UpdateGameSpec(w, now, move);
  }

  /** Outside PLAYING a tick changes nothing. */
  lemma UpdateGameIdleOutsidePlay(w: World, now: int, move: Mover)
    requires Valid(w) && w.state != Playing
    ensures UpdateGame(w, now, move) == w
  {
  }

  /** `handleTowerAttacks` at time `now`; outside PLAYING nothing happens. */
  function HandleTowerAttacks(w: World, now: int): World
    requires Valid(w)
  {
    if w.state != Playing then w else AttackPass(w, now)
  }

  /** An attack round keeps the invariant and credits exactly BOUNTY for each
      enemy it removes. */
  lemma HandleTowerAttacksSpec(w: World, now: int)
    requires Valid(w)
    ensures Valid(HandleTowerAttacks(w, now))
    ensures HandleTowerAttacks(w, now).money == w.money + BOUNTY * (|w.enemies| - |HandleTowerAttacks(w, now).enemies|)
    ensures |HandleTowerAttacks(w, now).enemies| <= |w.enemies|
  {
    if w.state == Playing {
      AttackFromSpec(w, now, 0, LevelOf(w.level).path);
    }
  }

  /** Which mouse button was pressed. */
  datatype MouseButton = LeftButton | RightButton | OtherButton

  /** A mouse press as the core sees it: the button, the position, whether the
      position is on the start, exit or next-level button of the screen shown,
      and what the tower menu would return if it is opened. */
  datatype Click = Click(button: MouseButton, pos: Point, onStart: bool, onExit: bool, onNextLevel: bool,
                         menu: MenuChoice)

  /** `mousePressEvent`, screen by screen. The exit button closes the window,
      which is outside the model; the session state is not changed. */
  function Press(w: World, c: Click): World
    requires Valid(w)
  {
    match w.state
    case Menu => if c.onStart then StartLevel(w, 1) else w
    case Playing =>
      if c.button == LeftButton then PlaceAttackTower(w, c.pos)
      else if c.button == RightButton then PlaceChosenTower(w, c.pos, c.menu)
      else w
    case LevelCompleted =>
      if !c.onNextLevel then w
      else if w.level < LEVEL_COUNT then StartLevel(w, w.level + 1)
      else w.(state := Victory)
    case _ => ResetGame(w)
  }

  /** Every press keeps the invariant. */
  lemma PressKeepsValid(w: World, c: Click)
    requires Valid(w)
    ensures Valid(Press(w, c))
  {
    if w.state == Playing {
      PlacementKeepsValid(w, c.pos, c.menu);
    }
  }

  /** The screen transitions a press can make: the menu's start button starts
      level 1 and any other press on the menu does nothing; while playing a
      press can change only the towers and the money; on the level-complete
      screen the next-level button starts level n + 1 for n below the last
      level and shows VICTORY after it; on GAME_OVER and VICTORY any press
      resets to the menu. */
  lemma PressTransitions(w: World, c: Click)
    requires Valid(w)
    ensures var r := Press(w, c);
      && (w.state == Menu && c.onStart ==> r == StartLevel(w, 1) && r.state == Playing && r.level == 1)
      && (w.state == Menu && !c.onStart ==> r == w)
      && (w.state == Playing ==> r.(towers := w.towers, towerTypes := w.towerTypes, money := w.money) == w)
      && (w.state == LevelCompleted && c.onNextLevel && w.level < LEVEL_COUNT ==>
            r == StartLevel(Initial(), w.level + 1))
      && (w.state == LevelCompleted && c.onNextLevel && w.level == LEVEL_COUNT ==>
            r == w.(state := Victory))
      && (w.state == LevelCompleted && !c.onNextLevel ==> r == w)
      && (w.state == GameOver || w.state == Victory ==> r == ResetGame(w))
  {
  }
}
