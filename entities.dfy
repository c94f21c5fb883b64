/** The game's state: session scalars and the parallel entity vectors of
    `GameWindow`, as one value. The five per-enemy vectors and the two
    per-tower vectors stay separate sequences, as in the source; keeping them
    aligned is an invariant proved about every operation. */
module Entities {
  import opened Geometry
  import opened Levels

  datatype TowerType = AttackTower | FreezeTower
  datatype GameState = Menu | Playing | LevelCompleted | Victory | GameOver

  /** A shot drawn for a while after an attack tower fires. */
  datatype Bullet = Bullet(startPos: Point, targetPos: Point, startTime: int)

  const TOWER_COST := 300
  const TOWER_RANGE := 150
  const TOWER_DAMAGE := 20
  const PLAYER_MAX_HEALTH := 100
  const INITIAL_MONEY := 1100
  const FREEZE_DURATION := 5000
  const FREEZE_PROTECTION := 15000
  /** Health an enemy takes from the player when it reaches the last waypoint. */
  const BASE_DAMAGE := 15
  /** Money credited for each enemy an attack tower kills. */
  const BOUNTY := 50
  /** How close (strictly) an enemy must be to a waypoint to have reached it. */
  const ARRIVAL_RADIUS := 8
  /** How close (strictly) a click must be to a build zone to select it. */
  const ZONE_RADIUS := 30
  /** How close (strictly) a tower must be to a zone to occupy it. */
  const OCCUPANCY_RADIUS := 10
  /** Age (ms) at which a bullet is discarded. */
  const BULLET_LIFETIME := 1000

  /** The fields of GameWindow that the simulation reads and writes.
      `spawnActive` stands for the running state of the spawn timer. */
  datatype World = World(
    state: GameState,
    level: int,
    health: int,
    money: int,
    spawned: int,
    spawnActive: bool,
    enemies: seq<Point>,
    enemyHealth: seq<int>,
    enemyPathIndex: seq<int>,
    enemyFreezeEnd: seq<int>,
    enemyLastFreezeTime: seq<int>,
    towers: seq<Point>,
    towerTypes: seq<TowerType>,
    bullets: seq<Bullet>)

  /** The five enemy vectors have one length, and so do the two tower vectors. */
  predicate Aligned(w: World)
  {
    && |w.enemyHealth| == |w.enemies|
    && |w.enemyPathIndex| == |w.enemies|
    && |w.enemyFreezeEnd| == |w.enemies|
    && |w.enemyLastFreezeTime| == |w.enemies|
    && |w.towerTypes| == |w.towers|
  }

  /** Every enemy's path index names a segment of `path`, so `path[idx + 1]` exists. */
  predicate PathIndicesOk(w: World, path: seq<Point>)
    requires Aligned(w)
  {
    forall k :: 0 <= k < |w.enemies| ==> 0 <= w.enemyPathIndex[k] < |path| - 1
  }

  /** Every enemy in the store is alive. */
  predicate EnemiesAlive(w: World)
    requires Aligned(w)
  {
    forall k :: 0 <= k < |w.enemies| ==> w.enemyHealth[k] > 0
  }

  /** The invariant GameWindow keeps between events. */
  predicate Valid(w: World)
  {
    && Aligned(w)
    && 0 <= w.level <= LEVEL_COUNT
    && 0 <= w.health <= PLAYER_MAX_HEALTH
    && w.money >= 0
    && w.spawned >= 0
    && (w.state == Playing || w.state == LevelCompleted ==> w.level >= 1)
    && (w.level == 0 ==> |w.enemies| == 0 && w.spawned == 0)
    && (w.level >= 1 ==>
          w.spawned <= LevelOf(w.level).totalEnemies && PathIndicesOk(w, LevelOf(w.level).path))
    && EnemiesAlive(w)
  }

  /** One enemy's five attributes, read across the parallel vectors. */
  datatype EnemyRow = EnemyRow(pos: Point, health: int, pathIndex: int, freezeEnd: int, lastFreeze: int)

  /** The enemy table as a sequence of rows. */
  function Rows(w: World): (rs: seq<EnemyRow>)
    requires Aligned(w)
    ensures |rs| == |w.enemies|
    ensures forall k :: 0 <= k < |rs| ==>
      rs[k] == EnemyRow(w.enemies[k], w.enemyHealth[k], w.enemyPathIndex[k],
                        w.enemyFreezeEnd[k], w.enemyLastFreezeTime[k])
  {
    seq(|w.enemies|, k requires 0 <= k < |w.enemies| =>
      EnemyRow(w.enemies[k], w.enemyHealth[k], w.enemyPathIndex[k],
               w.enemyFreezeEnd[k], w.enemyLastFreezeTime[k]))
  }

  /** `QVector::remove(i)`: drop element i, shifting the later ones down by one. */
  function RemoveAt<T>(s: seq<T>, i: int): (r: seq<T>)
    requires 0 <= i < |s|
    ensures |r| == |s| - 1
    ensures forall k :: 0 <= k < i ==> r[k] == s[k]
    ensures forall k :: i <= k < |r| ==> r[k] == s[k + 1]
  {
    s[..i] + s[i + 1..]
  }

  /** Remove enemy i from all five vectors at once. */
  function RemoveEnemy(w: World, i: int): (r: World)
    requires Aligned(w) && 0 <= i < |w.enemies|
    ensures Aligned(r) && |r.enemies| == |w.enemies| - 1
    ensures Rows(r) == Rows(w)[..i] + Rows(w)[i + 1..]
    ensures r.(enemies := w.enemies, enemyHealth := w.enemyHealth, enemyPathIndex := w.enemyPathIndex,
               enemyFreezeEnd := w.enemyFreezeEnd, enemyLastFreezeTime := w.enemyLastFreezeTime) == w
  {
    var r := w.(enemies := RemoveAt(w.enemies, i),
                enemyHealth := RemoveAt(w.enemyHealth, i),
                enemyPathIndex := RemoveAt(w.enemyPathIndex, i),
                enemyFreezeEnd := RemoveAt(w.enemyFreezeEnd, i),
                enemyLastFreezeTime := RemoveAt(w.enemyLastFreezeTime, i));
    assert Rows(r) == Rows(w)[..i] + Rows(w)[i + 1..];
    r
  }

  /** Removing an enemy leaves every remaining path index in bounds. */
  lemma RemoveEnemyKeepsPath(w: World, i: int, path: seq<Point>)
    requires Aligned(w) && 0 <= i < |w.enemies| && PathIndicesOk(w, path)
    ensures PathIndicesOk(RemoveEnemy(w, i), path)
  {
  }
}
