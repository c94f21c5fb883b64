/** The enemy-movement part of `updateGame`: each unfrozen enemy walks towards
    the next waypoint, advances its path index on reaching an intermediate
    waypoint, and on reaching the last one leaves the field and damages the
    player. */
module Movement {
  import opened Geometry
  import opened Levels
  import opened Entities

  /** What one pass does to one enemy. */
  datatype Fate = Frozen | Advance | Step | Arrive

  /** The fate of an enemy, decided from its own attributes alone. */
  function FateOf(path: seq<Point>, now: int, row: EnemyRow): Fate
    requires 0 <= row.pathIndex < |path| - 1
  {
    if row.freezeEnd > now then Frozen
    else if Within(row.pos, path[row.pathIndex + 1], ARRIVAL_RADIUS) then
      (if row.pathIndex + 1 < |path| - 1 then Advance else Arrive)
    else Step
  }

  /** An enemy that does not arrive, as it is after the pass. Only its position
      and path index can change; a frozen enemy is left untouched; the path
      index never leaves the path's segments. */
  function Moved(lvl: Level, now: int, move: Mover, row: EnemyRow): (r: EnemyRow)
    requires 0 <= row.pathIndex < |lvl.path| - 1
    ensures row.freezeEnd > now ==> r == row
    ensures r.health == row.health && r.freezeEnd == row.freezeEnd && r.lastFreeze == row.lastFreeze
    ensures r.pathIndex == row.pathIndex || r.pathIndex == row.pathIndex + 1
    ensures 0 <= r.pathIndex < |lvl.path| - 1
  {
    match FateOf(lvl.path, now, row)
    case Advance => row.(pathIndex := row.pathIndex + 1)
    case Step => row.(pos := move(row.pos, lvl.path[row.pathIndex + 1], lvl.enemySpeed))
    case _ => row
  }

  predicate RowsOnPath(rows: seq<EnemyRow>, path: seq<Point>)
  {
    forall k :: 0 <= k < |rows| ==> 0 <= rows[k].pathIndex < |path| - 1
  }

  /** Reference definition of the pass on the enemy table: every enemy is
      treated once, in order; arrivals are dropped and the others kept in order. */
  function Settle(lvl: Level, now: int, move: Mover, rows: seq<EnemyRow>): (r: seq<EnemyRow>)
    requires RowsOnPath(rows, lvl.path)
  {
    if |rows| == 0 then []
    else
      (if FateOf(lvl.path, now, rows[0]) == Arrive then [] else [Moved(lvl, now, move, rows[0])])
      + Settle(lvl, now, move, rows[1..])
  }

  /** Number of enemies that reach the last waypoint in the pass. */
  function Arrivals(lvl: Level, now: int, rows: seq<EnemyRow>): (n: nat)
    requires RowsOnPath(rows, lvl.path)
  {
    if |rows| == 0 then 0
    else (if FateOf(lvl.path, now, rows[0]) == Arrive then 1 else 0) + Arrivals(lvl, now, rows[1..])
  }

  /** `qMax(health - 15, 0)` applied n times. */
  function Damaged(health: int, n: nat): (h: int)
  {
    if health - BASE_DAMAGE * n > 0 then health - BASE_DAMAGE * n else 0
  }

  /** Enemy i reaches the last waypoint on this tick. */
  predicate Arrives(w: World, lvl: Level, now: int, i: int)
    requires Aligned(w) && PathIndicesOk(w, lvl.path) && 0 <= i < |w.enemies|
  {
    FateOf(lvl.path, now, Rows(w)[i]) == Arrive
  }

  /** The body of the enemy loop of `updateGame` on enemy i: a frozen enemy is
      skipped, one within ARRIVAL_RADIUS of its next waypoint advances to the
      next segment or, at the last waypoint, hurts the player by BASE_DAMAGE
      (floored at 0) and is removed from all five vectors; any other enemy
      takes one step toward its next waypoint. */
  function MoveStep(w: World, lvl: Level, now: int, move: Mover, i: nat): (r: World)
    requires Aligned(w) && PathIndicesOk(w, lvl.path) && i < |w.enemies|
    ensures Aligned(r) && PathIndicesOk(r, lvl.path) && SameOutsideMovement(r, w)
    ensures |r.enemies| == if Arrives(w, lvl, now, i) then |w.enemies| - 1 else |w.enemies|
  {
    var idx := w.enemyPathIndex[i];
    match FateOf(lvl.path, now, Rows(w)[i])
    case Frozen => w
    case Advance => w.(enemyPathIndex := w.enemyPathIndex[i := idx + 1])
    case Step => w.(enemies := w.enemies[i := move(w.enemies[i], lvl.path[idx + 1], lvl.enemySpeed)])
    case Arrive =>
      var hurt := w.(health := if w.health - BASE_DAMAGE > 0 then w.health - BASE_DAMAGE else 0);
      RemoveEnemyKeepsPath(hurt, i, lvl.path);
      RemoveEnemy(hurt, i)
  }

  /** The loop of `updateGame` over the enemies, from index i on, exactly as the
      source runs it: after a removal at i the index is not advanced (the `i--`),
      so the enemy shifted into slot i is treated next. */
  function MoveFrom(w: World, lvl: Level, now: int, move: Mover, i: nat): (r: World)
    requires Aligned(w) && PathIndicesOk(w, lvl.path) && i <= |w.enemies|
    ensures Aligned(r) && SameOutsideMovement(r, w)
    decreases |w.enemies| - i
  {
    if i == |w.enemies| then w
    else
      var next := if Arrives(w, lvl, now, i) then i else i + 1;
      MoveFrom(MoveStep(w, lvl, now, move, i), lvl, now, move, next)
  }

  /** Everything but the enemy vectors and the player's health. */
  predicate SameOutsideMovement(a: World, b: World)
  {
    a.(enemies := b.enemies, enemyHealth := b.enemyHealth, enemyPathIndex := b.enemyPathIndex,
       enemyFreezeEnd := b.enemyFreezeEnd, enemyLastFreezeTime := b.enemyLastFreezeTime,
       health := b.health) == b
  }

  /** What `MoveFrom(w, .., i)` is claimed to compute, stated without the loop:
      enemies before i are untouched, every enemy from i on is treated exactly
      once, the player loses 15 health per arrival (floored at 0), and nothing
      else changes. */
  predicate Settles(w: World, lvl: Level, now: int, move: Mover, i: nat)
    requires Aligned(w) && PathIndicesOk(w, lvl.path) && i <= |w.enemies|
  {
    var r := MoveFrom(w, lvl, now, move, i);
    && RowsOnPath(Rows(w)[i..], lvl.path)
    && Aligned(r)
    && Rows(r) == Rows(w)[..i] + Settle(lvl, now, move, Rows(w)[i..])
    && r.health == Damaged(w.health, Arrivals(lvl, now, Rows(w)[i..]))
    && SameOutsideMovement(r, w)
  }

  /** The in-place loop with removal and re-visit agrees with the reference:
      no enemy is skipped because of a removal, none is treated twice. */
  lemma {:induction false} MoveFromSettles(w: World, lvl: Level, now: int, move: Mover, i: nat)
    requires Aligned(w) && PathIndicesOk(w, lvl.path) && i <= |w.enemies| && w.health >= 0
    ensures Settles(w, lvl, now, move, i)
    decreases |w.enemies| - i, 1
  {
    var rs := Rows(w);
    if i == |w.enemies| {
      assert rs[..i] == rs;
      assert rs[i..] == [];
    } else if FateOf(lvl.path, now, rs[i]) == Arrive {
      ArriveSettles(w, lvl, now, move, i);
    } else {
      KeepSettles(w, lvl, now, move, i);
    }
  }

  /** Enemy i stays on the field: the loop rewrites its row and moves on to i + 1. */
  lemma {:induction false} KeepSettles(w: World, lvl: Level, now: int, move: Mover, i: nat)
    requires Aligned(w) && PathIndicesOk(w, lvl.path) && i < |w.enemies| && w.health >= 0
    requires FateOf(lvl.path, now, Rows(w)[i]) != Arrive
    ensures Settles(w, lvl, now, move, i)
    decreases |w.enemies| - i, 0
  {
    var rs := Rows(w);
    var w' := MoveStep(w, lvl, now, move, i);
    var r := MoveFrom(w', lvl, now, move, i + 1);
    assert MoveFrom(w, lvl, now, move, i) == r;
    RowsOnPathFrom(w, lvl.path, i);
    KeepStepRows(w, lvl, now, move, i);
    MoveFromSettles(w', lvl, now, move, i + 1);
    KeepKeepsRow(lvl, now, move, rs, i);
    assert Rows(r) == rs[..i] + [Moved(lvl, now, move, rs[i])] + Settle(lvl, now, move, rs[i + 1..]);
  }

  /** The rows of a store whose path indices are in range lie on the path. */
  lemma RowsOnPathFrom(w: World, path: seq<Point>, i: nat)
    requires Aligned(w) && PathIndicesOk(w, path) && i <= |w.enemies|
    ensures RowsOnPath(Rows(w)[i..], path)
  {
    assert forall k :: 0 <= k < |w.enemies| - i ==> Rows(w)[i..][k] == Rows(w)[i + k];
  }

  /** In the reference, an enemy that does not arrive contributes its moved row
      and no arrival. */
  lemma KeepKeepsRow(lvl: Level, now: int, move: Mover, rs: seq<EnemyRow>, i: nat)
    requires i < |rs| && RowsOnPath(rs[i..], lvl.path) && FateOf(lvl.path, now, rs[i]) != Arrive
    ensures RowsOnPath(rs[i + 1..], lvl.path)
    ensures Settle(lvl, now, move, rs[i..]) == [Moved(lvl, now, move, rs[i])] + Settle(lvl, now, move, rs[i + 1..])
    ensures Arrivals(lvl, now, rs[i..]) == Arrivals(lvl, now, rs[i + 1..])
  {
    assert rs[i..][0] == rs[i] && rs[i..][1..] == rs[i + 1..];
  }

  /** One turn of the loop on an enemy that does not arrive rewrites its row
      as Moved says and leaves the player's health alone. */
  lemma KeepStepRows(w: World, lvl: Level, now: int, move: Mover, i: nat)
    requires Aligned(w) && PathIndicesOk(w, lvl.path) && i < |w.enemies|
    requires FateOf(lvl.path, now, Rows(w)[i]) != Arrive
    ensures Rows(MoveStep(w, lvl, now, move, i))[..i + 1] == Rows(w)[..i] + [Moved(lvl, now, move, Rows(w)[i])]
    ensures Rows(MoveStep(w, lvl, now, move, i))[i + 1..] == Rows(w)[i + 1..]
    ensures MoveStep(w, lvl, now, move, i).health == w.health
  {
    var r := MoveStep(w, lvl, now, move, i);
    var moved := Moved(lvl, now, move, Rows(w)[i]);
    forall k | 0 <= k < |w.enemies|
      ensures Rows(r)[k] == Rows(w)[i := moved][k]
    {
    }
    assert Rows(r) == Rows(w)[i := moved];
  }

  /** Enemy i arrives: the loop damages the player, removes the enemy from all
      five vectors and treats the enemy shifted into slot i next. */
  lemma {:induction false} ArriveSettles(w: World, lvl: Level, now: int, move: Mover, i: nat)
    requires Aligned(w) && PathIndicesOk(w, lvl.path) && i < |w.enemies| && w.health >= 0
    requires FateOf(lvl.path, now, Rows(w)[i]) == Arrive
    ensures Settles(w, lvl, now, move, i)
    decreases |w.enemies| - i, 0
  {
    var rs := Rows(w);
    var w' := MoveStep(w, lvl, now, move, i);
    assert MoveFrom(w, lvl, now, move, i) == MoveFrom(w', lvl, now, move, i);
    ArriveStepRows(w, lvl, now, move, i);
    MoveFromSettles(w', lvl, now, move, i);
    assert Rows(w')[..i] == rs[..i];
    assert Rows(w')[i..] == rs[i + 1..];
    ArriveDropsRow(lvl, now, move, rs, i);
    DamagedStep(w.health, Arrivals(lvl, now, rs[i + 1..]));
  }

  /** One turn of the loop on an arriving enemy drops its row and takes
      BASE_DAMAGE from the player, floored at 0. */
  lemma ArriveStepRows(w: World, lvl: Level, now: int, move: Mover, i: nat)
    requires Aligned(w) && PathIndicesOk(w, lvl.path) && i < |w.enemies|
    requires FateOf(lvl.path, now, Rows(w)[i]) == Arrive
    ensures Rows(MoveStep(w, lvl, now, move, i)) == Rows(w)[..i] + Rows(w)[i + 1..]
    ensures MoveStep(w, lvl, now, move, i).health == if w.health - BASE_DAMAGE > 0 then w.health - BASE_DAMAGE else 0
  {
    var hurt := w.(health := if w.health - BASE_DAMAGE > 0 then w.health - BASE_DAMAGE else 0);
    assert Rows(hurt) == Rows(w);
  }

  /** In the reference, an arriving enemy contributes no survivor and one arrival. */
  lemma ArriveDropsRow(lvl: Level, now: int, move: Mover, rs: seq<EnemyRow>, i: nat)
    requires i < |rs| && RowsOnPath(rs[i..], lvl.path) && FateOf(lvl.path, now, rs[i]) == Arrive
    ensures RowsOnPath(rs[i + 1..], lvl.path)
    ensures Settle(lvl, now, move, rs[i..]) == Settle(lvl, now, move, rs[i + 1..])
    ensures Arrivals(lvl, now, rs[i..]) == 1 + Arrivals(lvl, now, rs[i + 1..])
  {
    assert rs[i..][0] == rs[i] && rs[i..][1..] == rs[i + 1..];
  }

  /** Settling never adds enemies: the survivors are the enemies minus the arrivals. */
  lemma {:induction false} SettleCount(lvl: Level, now: int, move: Mover, rows: seq<EnemyRow>)
    requires RowsOnPath(rows, lvl.path)
    ensures |Settle(lvl, now, move, rows)| + Arrivals(lvl, now, rows) == |rows|
  {
    if |rows| > 0 {
      SettleCount(lvl, now, move, rows[1..]);
    }
  }

  /** Every survivor is an enemy of the input that did not arrive, as it is
      after its move: so survivors stay on the path's segments and keep the
      health and freeze stamps of the enemy they come from. */
  lemma {:induction false} SettleKeepsRows(lvl: Level, now: int, move: Mover, rows: seq<EnemyRow>)
    requires RowsOnPath(rows, lvl.path)
    ensures RowsOnPath(Settle(lvl, now, move, rows), lvl.path)
    ensures forall k :: 0 <= k < |Settle(lvl, now, move, rows)| ==>
      exists j :: 0 <= j < |rows| && FateOf(lvl.path, now, rows[j]) != Arrive
                  && Settle(lvl, now, move, rows)[k] == Moved(lvl, now, move, rows[j])
  {
    if |rows| > 0 {
      SettleKeepsRows(lvl, now, move, rows[1..]);
      var tail := Settle(lvl, now, move, rows[1..]);
      var r := Settle(lvl, now, move, rows);
      forall k | 0 <= k < |r|
        ensures exists j :: 0 <= j < |rows| && FateOf(lvl.path, now, rows[j]) != Arrive
                            && r[k] == Moved(lvl, now, move, rows[j])
      {
        if FateOf(lvl.path, now, rows[0]) == Arrive {
          assert r[k] == tail[k];
          var j :| 0 <= j < |rows[1..]| && FateOf(lvl.path, now, rows[1..][j]) != Arrive
                   && tail[k] == Moved(lvl, now, move, rows[1..][j]);
          assert rows[1..][j] == rows[j + 1];
        } else if k == 0 {
          assert r[0] == Moved(lvl, now, move, rows[0]);
        } else {
          assert r[k] == tail[k - 1];
          var j :| 0 <= j < |rows[1..]| && FateOf(lvl.path, now, rows[1..][j]) != Arrive
                   && tail[k - 1] == Moved(lvl, now, move, rows[1..][j]);
          assert rows[1..][j] == rows[j + 1];
        }
      }
    }
  }

  /** If every enemy is alive before the pass, every survivor is alive after it. */
  lemma SettleKeepsAlive(lvl: Level, now: int, move: Mover, rows: seq<EnemyRow>)
    requires RowsOnPath(rows, lvl.path) && forall k :: 0 <= k < |rows| ==> rows[k].health > 0
    ensures forall k :: 0 <= k < |Settle(lvl, now, move, rows)| ==> Settle(lvl, now, move, rows)[k].health > 0
  {
    SettleKeepsRows(lvl, now, move, rows);
    forall k | 0 <= k < |Settle(lvl, now, move, rows)|
      ensures Settle(lvl, now, move, rows)[k].health > 0
    {
      var j :| 0 <= j < |rows| && FateOf(lvl.path, now, rows[j]) != Arrive
               && Settle(lvl, now, move, rows)[k] == Moved(lvl, now, move, rows[j]);
    }
  }

  /** A frozen enemy is kept by the pass, with all five attributes unchanged:
      it appears among the survivors exactly as it was. */
  lemma {:induction false} FrozenEnemyUntouched(lvl: Level, now: int, move: Mover, rows: seq<EnemyRow>, k: int)
    requires RowsOnPath(rows, lvl.path) && 0 <= k < |rows| && rows[k].freezeEnd > now
    ensures rows[k] in Settle(lvl, now, move, rows)
  {
    if k > 0 {
      assert rows[1..][k - 1] == rows[k];
      FrozenEnemyUntouched(lvl, now, move, rows[1..], k - 1);
    }
  }

  /** An unfrozen enemy within reach of the last waypoint is counted as an arrival. */
  lemma {:induction false} ArrivalCounted(lvl: Level, now: int, rows: seq<EnemyRow>, k: int)
    requires RowsOnPath(rows, lvl.path) && 0 <= k < |rows|
    requires FateOf(lvl.path, now, rows[k]) == Arrive
    ensures Arrivals(lvl, now, rows) >= 1
  {
    if k > 0 {
      assert rows[1..][k - 1] == rows[k];
      ArrivalCounted(lvl, now, rows[1..], k - 1);
    }
  }

  /** The whole enemy loop of `updateGame`. */
  function MovePass(w: World, lvl: Level, now: int, move: Mover): (r: World)
    requires Aligned(w) && PathIndicesOk(w, lvl.path)
    ensures Aligned(r) && SameOutsideMovement(r, w)
  {
    MoveFrom(w, lvl, now, move, 0)
  }

  /** What the movement pass does, stated without the loop: the enemy table
      becomes the settled table, health drops by 15 per arrival (floored at 0)
      and nothing else changes (in particular no money is credited). The
      invariants of the enemy table are preserved. */
  lemma MovePassSpec(w: World, lvl: Level, now: int, move: Mover)
    requires Aligned(w) && PathIndicesOk(w, lvl.path) && EnemiesAlive(w) && w.health >= 0
    ensures RowsOnPath(Rows(w), lvl.path)
    ensures Aligned(MovePass(w, lvl, now, move))
    ensures Rows(MovePass(w, lvl, now, move)) == Settle(lvl, now, move, Rows(w))
    ensures MovePass(w, lvl, now, move).health == Damaged(w.health, Arrivals(lvl, now, Rows(w)))
    ensures |MovePass(w, lvl, now, move).enemies| == |w.enemies| - Arrivals(lvl, now, Rows(w))
    ensures SameOutsideMovement(MovePass(w, lvl, now, move), w)
    ensures PathIndicesOk(MovePass(w, lvl, now, move), lvl.path)
    ensures EnemiesAlive(MovePass(w, lvl, now, move))
  {
    var rs := Rows(w);
    MoveFromSettles(w, lvl, now, move, 0);
    assert rs[..0] + Settle(lvl, now, move, rs[0..]) == Settle(lvl, now, move, rs) by {
      assert rs[0..] == rs;
    }
    SettleCount(lvl, now, move, rs);
    SettleKeepsRows(lvl, now, move, rs);
    SettleKeepsAlive(lvl, now, move, rs);
    var r := MovePass(w, lvl, now, move);
    forall k | 0 <= k < |r.enemies| ensures 0 <= r.enemyPathIndex[k] < |lvl.path| - 1 && r.enemyHealth[k] > 0 {
      assert Rows(r)[k] == Settle(lvl, now, move, rs)[k];
    }
  }

  /** Damage from successive arrivals accumulates: one more arrival after n
      costs another 15, still floored at 0. */
  lemma DamagedStep(health: int, n: nat)
    ensures Damaged(if health - BASE_DAMAGE > 0 then health - BASE_DAMAGE else 0, n) == Damaged(health, n + 1)
  {
  }
}
