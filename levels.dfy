/** The static level table built by `initLevels`. */
module Levels {
  import opened Geometry

  /** One level: its enemy quota, spawn period (ms), enemy speed and starting
      health, the polyline the enemies follow and the build-zone anchors. */
  datatype Level = Level(
    totalEnemies: int,
    spawnInterval: int,
    enemySpeed: int,
    enemyHealth: int,
    path: seq<Point>,
    buildZones: seq<Point>)

  /** Number of levels in the table; level numbers run from 1 to LEVEL_COUNT. */
  const LEVEL_COUNT := 3

  /** What the simulation relies on about a level: a path of at least two
      waypoints (so `path[idx + 1]` exists for idx = 0), enemies that start
      alive, and a non-negative quota. */
  predicate WellFormed(l: Level)
  {
    |l.path| >= 2 && l.enemyHealth > 0 && l.totalEnemies >= 0 && l.spawnInterval > 0
  }

  /** The three levels, in order. */
  function Catalog(): (ls: seq<Level>)
    ensures |ls| == LEVEL_COUNT
    ensures forall k :: 0 <= k < |ls| ==> WellFormed(ls[k])
    ensures ls[0].totalEnemies == 12 && ls[1].totalEnemies == 18 && ls[2].totalEnemies == 25
  {
    var figureEight := Level(12, 1600, 2, 100,
      [Point(-50.0, 360.0), Point(200.0, 200.0), Point(400.0, 520.0),
       Point(600.0, 200.0), Point(800.0, 520.0), Point(1000.0, 360.0), Point(1300.0, 360.0)],
      [Point(200.0, 120.0), Point(200.0, 280.0),
       Point(400.0, 440.0), Point(400.0, 600.0),
       Point(600.0, 120.0), Point(600.0, 280.0)]);
    var twinLoops := Level(18, 1300, 3, 150,
      [Point(-50.0, 360.0), Point(300.0, 150.0), Point(500.0, 150.0),
       Point(600.0, 360.0), Point(500.0, 570.0), Point(300.0, 570.0),
       Point(200.0, 360.0), Point(400.0, 360.0), Point(1300.0, 360.0)],
      [Point(400.0, 360.0), Point(400.0, 150.0), Point(400.0, 570.0)]);
    var threeTiers := Level(25, 1000, 4, 220,
      [Point(-50.0, 360.0), Point(200.0, 120.0), Point(400.0, 120.0),
       Point(500.0, 360.0), Point(700.0, 360.0), Point(800.0, 600.0),
       Point(1000.0, 600.0), Point(1300.0, 360.0)],
      [Point(300.0, 120.0), Point(600.0, 360.0), Point(900.0, 600.0),
       Point(450.0, 240.0), Point(750.0, 480.0)]);
    [figureEight, twinLoops, threeTiers]
  }

  /** `levels[n - 1]`: the definition of level n. */
  function LevelOf(n: int): (l: Level)
    requires 1 <= n <= LEVEL_COUNT
    ensures WellFormed(l)
  {
    Catalog()[n - 1]
  }
}
