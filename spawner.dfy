/** `spawnEnemy`: one enemy per timer tick until the level's quota is met. */
module Spawner {
  import opened Geometry
  import opened Levels
  import opened Entities

  /** The row of a freshly spawned enemy of level l: at the first waypoint, at
      full health, on segment 0, never frozen. */
  function NewEnemy(l: Level): EnemyRow
    requires WellFormed(l)
  {
    EnemyRow(l.path[0], l.enemyHealth, 0, 0, 0)
  }

  /** One tick of the spawn timer. The source reads `levels[currentLevel - 1]`
      with no check, so a current level in 1..3 is required. At the quota no
      enemy is added and the timer is stopped; below it exactly one enemy is
      appended to all five vectors and the counter goes up by one. */
  function Spawn(w: World): (r: World)
    requires Aligned(w) && 1 <= w.level <= LEVEL_COUNT
    ensures Aligned(r)
    ensures w.spawned >= LevelOf(w.level).totalEnemies ==> r == w.(spawnActive := false)
    ensures w.spawned < LevelOf(w.level).totalEnemies ==>
      && Rows(r) == Rows(w) + [NewEnemy(LevelOf(w.level))]
      && r.spawned == w.spawned + 1
      && r.(enemies := w.enemies, enemyHealth := w.enemyHealth, enemyPathIndex := w.enemyPathIndex,
            enemyFreezeEnd := w.enemyFreezeEnd, enemyLastFreezeTime := w.enemyLastFreezeTime,
            spawned := w.spawned) == w
  {
    var lvl := LevelOf(w.level);
    if w.spawned >= lvl.totalEnemies then w.(spawnActive := false)
    else
      var r := w.(enemies := w.enemies + [lvl.path[0]],
                  enemyHealth := w.enemyHealth + [lvl.enemyHealth],
                  enemyPathIndex := w.enemyPathIndex + [0],
                  enemyFreezeEnd := w.enemyFreezeEnd + [0],
                  enemyLastFreezeTime := w.enemyLastFreezeTime + [0],
                  spawned := w.spawned + 1);
      assert Rows(r) == Rows(w) + [NewEnemy(lvl)];
      r
  }

  /** Spawning keeps the game invariant; in particular the counter never
      exceeds the level's quota, the new enemy is alive and on the path. */
  lemma SpawnKeepsValid(w: World)
    requires Valid(w) && 1 <= w.level
    ensures Valid(Spawn(w))
    ensures Spawn(w).spawned <= LevelOf(w.level).totalEnemies
  {
    var r := Spawn(w);
    var lvl := LevelOf(w.level);
    if w.spawned < lvl.totalEnemies {
      forall k | 0 <= k < |r.enemies|
        ensures 0 <= r.enemyPathIndex[k] < |lvl.path| - 1 && r.enemyHealth[k] > 0
      {
        assert Rows(r)[k] == if k < |w.enemies| then Rows(w)[k] else NewEnemy(lvl);
      }
    }
  }

  /** Once the quota is met, further ticks add nothing: the enemies, the
      counter and everything else but the timer flag stay as they are. */
  lemma {:induction false} SpawnStopsAtQuota(w: World, ticks: nat)
    requires Aligned(w) && 1 <= w.level <= LEVEL_COUNT
    requires w.spawned >= LevelOf(w.level).totalEnemies
    ensures Aligned(SpawnTicks(w, ticks))
    ensures ticks > 0 ==> SpawnTicks(w, ticks) == w.(spawnActive := false)
  {
    if ticks > 1 {
      SpawnStopsAtQuota(w, ticks - 1);
    }
  }

  /** The spawn timer firing `ticks` times in a row. */
  function SpawnTicks(w: World, ticks: nat): (r: World)
    requires Aligned(w) && 1 <= w.level <= LEVEL_COUNT
    ensures Aligned(r) && r.level == w.level
  {
    if ticks == 0 then w else Spawn(SpawnTicks(w, ticks - 1))
  }

  /** However often the timer fires, a level never spawns more than its quota. */
  lemma {:induction false} SpawnTicksWithinQuota(w: World, ticks: nat)
    requires Aligned(w) && 1 <= w.level <= LEVEL_COUNT
    requires w.spawned <= LevelOf(w.level).totalEnemies
    ensures SpawnTicks(w, ticks).spawned <= LevelOf(w.level).totalEnemies
    ensures |SpawnTicks(w, ticks).enemies| - |w.enemies| == SpawnTicks(w, ticks).spawned - w.spawned
  {
    if ticks > 0 {
      SpawnTicksWithinQuota(w, ticks - 1);
    }
  }
}
