# GameWindow simulation core, in Dafny

This project models the simulation half of the `GameWindow` widget of a Qt
tower-defense game (`gamewindow.cpp`, `gamewindow.h`):

- enemies spawn at the start of a fixed path;
- enemies walk the path and damage the player when they reach its end;
- freeze towers stop the enemies they reach, with a protection window
  against immediate re-freezing;
- attack towers shoot the nearest enemy in range and earn a bounty when it
  dies;
- bullets expire after a second;
- the session moves through MENU, PLAYING, LEVEL_COMPLETED, VICTORY and
  GAME_OVER in response to mouse presses and to the end-of-tick check.

The project has two layers.

**Specification modules.** `Geometry`, `Levels`, `Entities`, `Movement`,
`Freezing`, `Bullets`, `Combat`, `Spawner`, `Placement` and `Session` model
each slot of the widget on an immutable `World` value.

- `World` holds the widget's fields. Enemies are kept as five parallel
  sequences, exactly as in the source.
- The movement, freeze, bullet, targeting and attack loops each have a
  recursive function. It walks the same indices in the same order and takes
  the same branches. This includes the `i--` that re-visits slot `i` after an
  enemy is removed during movement.
- The placement loops are stated differently on the value side:
  - the `hasTower` scans (`gamewindow.cpp:212-217`, `233-238`) are the
    predicate `Placement.Occupied` ("some tower within 10");
  - the zone scans (`gamewindow.cpp:209-210`, `230-231`) test money with
    every zone; `Placement.BuildSite` tests it once, beside the first zone
    near the click (`Placement.FirstZone`).

  The methods `Window.GameWindow.HasTower` and
  `Window.GameWindow.FindBuildSite` run those loops as written. They are
  proved equal to `Occupied` and `BuildSite`.
- Each such function is related by lemmas to an independent description of
  what the loop is meant to achieve. These include:
  - the reference `Settle` for movement;
  - "exactly the freezable enemies some freeze tower reaches" for freezing;
  - "the nearest in-range enemy, lowest index on ties" for targeting;
  - "exactly the live bullets" for expiry;
  - the money, bullet and invariant equations for an attack round.

**Class module.** `Window.GameWindow` is a class with the widget's fields:
`currentState`, `currentLevel`, `playerHealth`, `playerMoney`,
`enemiesSpawned`, the five enemy vectors, `towers`, `towerTypes`, `bullets`,
and a `spawnActive` flag standing for the spawn timer.

- Its methods run the source's loops in place.
- Each method is proved to leave the fields equal to the corresponding
  specification function applied to the old fields.
- Every public method also keeps the invariant `Valid()`:
  - the five enemy vectors have equal lengths;
  - path indices stay on the path's segments;
  - live enemies have positive health;
  - health is between 0 and 100;
  - money is non-negative;
  - `towers` and `towerTypes` have equal lengths;
  - the level is 0 to 3, and at least 1 while playing or on the level-complete screen;
  - with level 0 there are no enemies and nothing has been spawned;
  - the spawned count never exceeds the level's quota.

Inputs the widget takes from Qt are parameters of the model:

- **The clock.** `QDateTime::currentMSecsSinceEpoch()` becomes `now`.
- **The movement step.** `dir / dist * enemySpeed` becomes a `Mover`
  function.
- **Button hit tests and the pop-up menu's answer.** These become fields of
  a `Click`.

Three behaviours of the code a reader might not expect are modelled as
written:

- **Dismissed tower menu.** A right click on a free build zone debits
  `TOWER_COST` even when the tower menu is dismissed without a choice
  (`gamewindow.cpp:239-255`).
- **Spawn timer after a reset.** `resetGame` does not stop the spawn timer
  (`gamewindow.cpp:424-441`). The timer only stops when the quota is reached
  (`gamewindow.cpp:388-390`), so it is not suspended outside PLAYING.
- **No spawn guard.** Nothing in `spawnEnemy` checks the game state, so a
  spawn tick after the level ended still appends an enemy while the quota is
  unmet. The model's `Spawn` does the same.

## Model

| member | source | states |
|---|---|---|
| Geometry.DistSq | gamewindow.cpp:8-10 | The squared distance is never negative and is 0 between equal points; every `distance(a, b) < r` test of the source is `DistSq(a, b) < r*r` |
| Levels.Catalog | gamewindow.cpp:49-97 | The level table has exactly three levels with quotas 12, 18 and 25; each has a path of at least two waypoints, positive enemy health and a positive spawn interval |
| Levels.LevelOf | gamewindow.cpp:282 | Level n (1-based, `levels[currentLevel - 1]`) is defined exactly for 1..3 and is well formed |
| Entities.RemoveAt | gamewindow.cpp:300-304 | `QVector::remove(i)`: one element fewer, the elements before i kept, the ones after shifted down by one |
| Entities.RemoveEnemy | gamewindow.cpp:300-304 | Removing enemy i removes row i from all five vectors together (the vectors stay aligned), keeps the other rows in order and changes nothing else |
| Entities.RemoveEnemyKeepsPath | gamewindow.cpp:375-379 | A removal keeps every remaining path index on the path's segments |
| Movement.Moved | gamewindow.cpp:287-310 | An enemy that does not arrive keeps its health and freeze stamps; a frozen one is untouched; otherwise only its position or its path index (by one) changes, and the index stays on the path's segments |
| Movement.MoveStep | gamewindow.cpp:287-310 | One iteration of the enemy loop keeps the vectors aligned and on the path, touches only the enemy vectors and player health, and removes an enemy exactly when enemy i reaches the last waypoint |
| Movement.MoveFrom | gamewindow.cpp:286-311 | The enemy loop from any index changes only the enemy vectors and the player's health, and keeps the vectors aligned |
| Movement.MoveFromSettles | gamewindow.cpp:286-311 | The in-place loop, with its removal and `i--`, agrees with the reference pass: the enemies before the start index are untouched, every later enemy is treated exactly once (none skipped after a removal), and health falls by 15 per arrival, floored at 0 |
| Movement.KeepSettles | gamewindow.cpp:287-296 | The agreement with the reference pass carries over an iteration in which enemy i stays on the field |
| Movement.ArriveSettles | gamewindow.cpp:298-305 | The agreement with the reference pass carries over an iteration in which enemy i arrives, is removed and slot i is re-visited |
| Movement.RowsOnPathFrom | gamewindow.cpp:289-290 | Every row from index i on points at a path segment, so its next waypoint `path[idx + 1]` exists |
| Movement.KeepKeepsRow | gamewindow.cpp:287-296 | A non-arriving enemy contributes its moved row to the reference pass and no arrival |
| Movement.KeepStepRows | gamewindow.cpp:287-296 | A non-arriving iteration replaces row i by its moved row, keeps the other rows and leaves health unchanged |
| Movement.ArriveStepRows | gamewindow.cpp:298-305 | An arriving iteration drops row i and sets health to `max(health - 15, 0)` |
| Movement.ArriveDropsRow | gamewindow.cpp:298-305 | An arriving enemy contributes no row to the reference pass and counts one arrival |
| Movement.SettleCount | gamewindow.cpp:286-311 | Survivors plus arrivals equal the enemies at the start of the pass: the pass never adds enemies |
| Movement.SettleKeepsRows | gamewindow.cpp:286-311 | Every survivor is an input enemy that did not arrive, as it is after its move (frozen: unchanged; otherwise stepped or advanced one segment), so survivors stay on the path's segments and the pass deals no damage to enemies |
| Movement.SettleKeepsAlive | gamewindow.cpp:286-311 | If every enemy is alive before the movement pass, every survivor is alive after it |
| Movement.FrozenEnemyUntouched | gamewindow.cpp:287 | An enemy whose freeze end lies after `now` survives the pass with all five attributes unchanged |
| Movement.ArrivalCounted | gamewindow.cpp:294-299 | An unfrozen enemy within 8 of the last waypoint is counted as an arrival |
| Movement.MovePass | gamewindow.cpp:286-311 | The whole enemy loop touches nothing but the enemy vectors and player health |
| Movement.MovePassSpec | gamewindow.cpp:286-311 | The enemy table after the loop is the reference pass's table; health drops 15 per arrival (floored at 0) with no money credited; the number of enemies drops by the number of arrivals; the table invariants are kept |
| Movement.DamagedStep | gamewindow.cpp:299 | Repeated `qMax(health - 15, 0)` accumulates: one more arrival after n costs another 15, still floored at 0 |
| Freezing.FreezeEnemy | gamewindow.cpp:325-326 | A freeze changes only the two freeze stamps of the enemies |
| Freezing.FreezeByTower | gamewindow.cpp:317-328 | The inner loop of one freeze tower changes only the enemies' freeze stamps |
| Freezing.FreezeFrom | gamewindow.cpp:314-330 | The nested freeze loops change only the enemies' freeze stamps |
| Freezing.FreezeByTowerSpec | gamewindow.cpp:317-328 | One tower's scan freezes exactly the enemies it reaches that are not frozen and were last frozen more than 15000 ms ago; every other enemy keeps its stamps |
| Freezing.FreezeFromSpec | gamewindow.cpp:314-330 | Over the towers from i on, an enemy is frozen at `now` exactly when it is freezable and some freeze tower from i on reaches it; a later tower never re-freezes an enemy an earlier one froze |
| Freezing.FreezePass | gamewindow.cpp:314-330 | The freeze pass changes only the freeze stamps |
| Freezing.FreezePassSpec | gamewindow.cpp:314-330 | Enemy j is frozen (end = now + 5000, last freeze = now) exactly when some freeze tower is within 150 of it, its freeze has ended and its last freeze is more than 15000 ms old; every other enemy keeps its stamps |
| Freezing.NoRefreezeWithinProtection | gamewindow.cpp:321-323 | An enemy frozen at most 15000 ms ago is never frozen again, whatever the towers |
| Freezing.FreezeTowerInRangeFreezes | gamewindow.cpp:319-326 | A freezable enemy within range of any freeze tower is frozen by the pass |
| Bullets.LiveBulletsExact | gamewindow.cpp:332-339 | The kept bullets are exactly the bullets fired less than 1000 ms before `now`, and there are no more of them than before |
| Bullets.LiveBulletsConcat | gamewindow.cpp:333-338 | The filter distributes over concatenation, so it keeps the bullets' order |
| Bullets.LiveBulletsIdempotent | gamewindow.cpp:332-339 | Expiring twice at the same time is the same as expiring once |
| Combat.ScanNearest | gamewindow.cpp:357-365 | After scanning n enemies, the running minimum is the smallest squared distance among them if below 150², the target attains it, and no earlier enemy attains it |
| Combat.Target | gamewindow.cpp:357-365 | The target is -1 exactly when no enemy is within 150; otherwise it is in range, no enemy is nearer, and every enemy before it is strictly farther (ties go to the lowest index) |
| Combat.Hit | gamewindow.cpp:366-381 | A hit appends a bullet from the tower to the target's position at `now` and takes 20 health; a target at 0 or below is removed with a bounty of 50, otherwise only its health changes |
| Combat.AttackStep | gamewindow.cpp:356-382 | One tower's turn changes only enemies, bullets and money, and keeps the vectors aligned |
| Combat.AttackFromSpec | gamewindow.cpp:355-384 | An attack round from tower i earns exactly 50 per enemy it removes, never adds enemies, and appends at most one bullet per attack tower, each fired at `now` from a tower, keeping the earlier bullets; health stays positive and path indices valid |
| Combat.HitKeepsInvariants | gamewindow.cpp:373-381 | After a hit every surviving enemy has positive health and a valid path index |
| Combat.BulletsExtend | gamewindow.cpp:371 | Appending a tower's bullet and then the later towers' bullets keeps the old bullets as a prefix |
| Combat.NoTargetNoShot | gamewindow.cpp:366 | With no enemy in range of any attack tower, an attack round changes nothing |
| Spawner.Spawn | gamewindow.cpp:387-398 | Below the quota a spawn appends one enemy at the first waypoint with the level's health, path index 0 and zero freeze stamps, and counts it; at the quota it only stops the spawn timer |
| Spawner.SpawnKeepsValid | gamewindow.cpp:387-398 | A spawn keeps the game invariant and the spawned count never passes the quota |
| Spawner.SpawnStopsAtQuota | gamewindow.cpp:388-390 | Once the quota is met, any number of further spawn ticks only stop the timer |
| Spawner.SpawnTicks | gamewindow.cpp:387-398 | Repeated spawn ticks keep the vectors aligned and the level fixed |
| Spawner.SpawnTicksWithinQuota | gamewindow.cpp:387-398 | However many ticks fire, the spawned count stays within the quota, and the enemies added equal the spawn-count increase |
| Placement.FirstZone | gamewindow.cpp:209-210 | The chosen zone is the first build zone within 30 of the click, or -1 when no zone is |
| Placement.BuildSite | gamewindow.cpp:229-231 | The build site is a valid index into the current level's zones, or -1 |
| Placement.LeftClickRule | gamewindow.cpp:207-226 | A left click changes the state exactly when money covers 300, a zone is within 30 and no tower is within 10 of it; it then adds an attack tower on the zone anchor and debits exactly 300, so money never goes negative |
| Placement.FarClickChangesNothing | gamewindow.cpp:209-231 | A click farther than 30 from every zone changes nothing, with either button |
| Placement.RightClickRule | gamewindow.cpp:228-259 | A right click on a valid site always debits 300, even when the menu is dismissed; only an attack or freeze choice adds a tower of that kind on the zone anchor; an invalid site changes nothing |
| Placement.PlacementKeepsValid | gamewindow.cpp:207-259 | Placement keeps the game invariant |
| Session.Initial | gamewindow.cpp:12-24 | A new window is on the menu, with no level, spawning off, and the invariant holding |
| Session.StartLevelSpec | gamewindow.cpp:400-422 | An out-of-range level only switches to GAME_OVER; a valid level gives a fresh PLAYING session at that level with default health and money, no entities and spawning on, whatever state it starts from |
| Session.ResetThenStart | gamewindow.cpp:400-441 | A reset followed by starting level 1 equals starting level 1 from any state, in particular from a new window |
| Session.ResetSpec | gamewindow.cpp:424-441 | A reset returns to the menu with level 0, default health and money, no entities and the invariant; it leaves the spawn timer as it was |
| Session.EndOfTick | gamewindow.cpp:341-347 | Health at or below 0 gives GAME_OVER, overriding level completion; with health left, LEVEL_COMPLETED exactly when the quota is spawned and no enemy is left (or it already was); the result is the old state, LEVEL_COMPLETED or GAME_OVER |
| Session.UpdateGameSpec | gamewindow.cpp:279-350 | A tick while playing keeps the invariant, costs 15 health per arriving enemy (floored at 0), removes exactly the arrivals: enemy k afterwards has the position, health and path index of the k-th survivor of the reference pass, and either its old freeze stamps or those of a freeze at `now`; money, towers, level and spawn count are left alone, and only live bullets remain |
| Session.UpdateGameOutcome | gamewindow.cpp:341-347 | After a tick that starts in PLAYING, the level is complete exactly when the quota is spawned, the field is empty and the player is alive; the game is over exactly when health has reached 0 |
| Session.ArrivalsEndTheGame | gamewindow.cpp:299 | Arrivals worth at least the remaining health end the game in that tick, with health 0, even if the field is also cleared |
| Session.UpdateGameIdleOutsidePlay | gamewindow.cpp:280 | Outside PLAYING a tick changes nothing |
| Session.HandleTowerAttacksSpec | gamewindow.cpp:352-385 | An attack round keeps the invariant, removes no more enemies than there are, and pays 50 per enemy removed |
| Session.PressKeepsValid | gamewindow.cpp:198-276 | Every mouse press keeps the game invariant |
| Session.PressTransitions | gamewindow.cpp:198-276 | On the menu the start button starts level 1 and any other press does nothing; while playing a press can change only the towers and the money; the next-level button starts level n + 1 below level 3 and shows VICTORY after level 3; other presses on that screen do nothing; on GAME_OVER and VICTORY any press resets |
| Window.GameWindow.constructor | gamewindow.cpp:12-41 | A new window holds the initial session and satisfies the invariant |
| Window.GameWindow.SpawnEnemy | gamewindow.cpp:387-398 | The spawn slot leaves the fields as `Spawner.Spawn` says and keeps the invariant |
| Window.GameWindow.AppendEnemy | gamewindow.cpp:392-396 | Appends one entry to each of the five enemy vectors |
| Window.GameWindow.SetSession | gamewindow.cpp:406-410 | Sets state and level and restores default health, money and spawn count |
| Window.GameWindow.ClearEntities | gamewindow.cpp:412-419 | Empties all eight entity vectors |
| Window.GameWindow.StartLevel | gamewindow.cpp:400-422 | Leaves the fields as `Session.StartLevel` says and keeps the invariant |
| Window.GameWindow.ResetGame | gamewindow.cpp:424-441 | Leaves the fields as `Session.ResetGame` says and keeps the invariant |
| Window.GameWindow.UpdateGame | gamewindow.cpp:279-350 | The tick slot leaves the fields as `Session.UpdateGame` says and keeps the invariant |
| Window.GameWindow.MoveEnemies | gamewindow.cpp:286-311 | The in-place enemy loop with `i--` leaves the fields as the movement pass says |
| Window.GameWindow.MoveEnemy | gamewindow.cpp:287-310 | One iteration reports whether enemy i arrived and leaves the fields as `MoveStep` says |
| Window.GameWindow.ApplyFreezeTowers | gamewindow.cpp:314-330 | The nested freeze loops leave the fields as `FreezePass` says |
| Window.GameWindow.FreezeInRange | gamewindow.cpp:317-328 | One freeze tower's inner loop leaves the fields as `FreezeByTower` says |
| Window.GameWindow.ExpireBullets | gamewindow.cpp:332-339 | Keeps exactly the live bullets, in order, and changes nothing else |
| Window.GameWindow.RemoveEnemyRow | gamewindow.cpp:300-304 | Removes enemy i from the five vectors as `RemoveEnemy` says |
| Window.GameWindow.FindTarget | gamewindow.cpp:357-365 | The scan returns the nearest in-range enemy, lowest index on ties, or -1 |
| Window.GameWindow.HandleTowerAttacks | gamewindow.cpp:352-385 | The attack slot leaves the fields as `Session.HandleTowerAttacks` says and keeps the invariant |
| Window.GameWindow.TowerAttack | gamewindow.cpp:356-382 | One tower's turn leaves the fields as `AttackStep` says |
| Window.GameWindow.HasTower | gamewindow.cpp:211-217 | Reports whether a tower stands within 10 of the zone |
| Window.GameWindow.FindBuildSite | gamewindow.cpp:229-238 | The zone loop, which tests money with each zone and stops at the first zone within 30, returns `Placement.BuildSite`: that zone when money covers 300 and no tower is within 10 of it, -1 otherwise |
| Window.GameWindow.PlaceAttackTower | gamewindow.cpp:207-226 | A left click while playing leaves the fields as `Placement.PlaceAttackTower` says and keeps the invariant |
| Window.GameWindow.PlaceChosenTower | gamewindow.cpp:228-259 | A right click while playing leaves the fields as `Placement.PlaceChosenTower` says and keeps the invariant |
| Window.GameWindow.MousePressEvent | gamewindow.cpp:198-276 | A press leaves the fields as `Session.Press` says and keeps the invariant |

## Left out

- Rendering (`paintEvent`, `gamewindow.cpp:99-196`) and the `update()` repaint requests: they only read the state.
- Qt timers (`gamewindow.cpp:29-38`, `421`): the three slots are methods called from outside. The spawn timer is the `spawnActive` flag; the 30 ms, 1000 ms and per-level intervals are not modelled.
- The clock: `QDateTime::currentMSecsSinceEpoch()` is the parameter `now`. The attack round uses one `now` for all its bullets, where the source reads the clock once per bullet.
- Floating point: positions are exact reals. `distance(a, b) < r` is compared as squared distances, which has the same truth value over the reals. The step `dir / dist * enemySpeed` (`gamewindow.cpp:309`) is the `Mover` parameter, so rounding and the step's geometry are not modelled.
- Integer widths: `int` and `qint64` are unbounded integers; overflow of money or time stamps is not modelled.
- Button rectangles, `QMenu::exec` and `close()` (`gamewindow.cpp:200-204`, `240-244`): the hit-test results and the menu's answer are fields of `Session.Click`, and closing the window changes no modelled state.
- The nested event loop of `QMenu::exec` (`gamewindow.cpp:244`): while the right-click menu is open the update, attack and spawn timers keep firing. A tick can end the level or the game before the tower is appended (`gamewindow.cpp:246`, `250`) and 300 is debited (`gamewindow.cpp:253`). The model treats a right click as one step, with no tick in between.
- The destructor, window size and title, the `nextLevelBtn` rectangle, and the unused constants `SCREEN_W`, `SCREEN_H` and `BULLET_SPEED`.
- Spawner.Spawn (and with it Spawner.SpawnTicks, Spawner.SpawnStopsAtQuota, Spawner.SpawnTicksWithinQuota): requires a current level of 1 to 3, for the same reason as the next line.
- Window.GameWindow.SpawnEnemy: requires a current level of 1 to 3. The source does not establish this after `resetGame`, which leaves a running spawn timer running, and with level 0 `spawnEnemy` would index `levels[-1]`. That out-of-range access is not modelled.
- Window.GameWindow.MoveEnemies, ApplyFreezeTowers and HandleTowerAttacks: the loop bodies are separate methods (`MoveEnemy`, `FreezeInRange`, `TowerAttack`) with the same behaviour, so that each proof stays small.
