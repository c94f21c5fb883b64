/** The freeze-tower part of `updateGame`: every freeze tower freezes every
    enemy in its range that is neither frozen nor inside its protection window. */
module Freezing {
  import opened Geometry
  import opened Entities

  /** An enemy may be frozen at `now`: its freeze has ended and its last freeze
      is more than FREEZE_PROTECTION ms ago. */
  predicate Freezable(freezeEnd: int, lastFreeze: int, now: int)
  {
    freezeEnd <= now && now - lastFreeze > FREEZE_PROTECTION
  }

  /** Tower i reaches enemy j. */
  predicate Reaches(w: World, i: int, j: int)
    requires Aligned(w) && 0 <= i < |w.towers| && 0 <= j < |w.enemies|
  {
    Within(w.towers[i], w.enemies[j], TOWER_RANGE)
  }

  /** Some freeze tower numbered lo or above reaches enemy j. */
  predicate ReachedFrom(w: World, j: int, lo: int)
    requires Aligned(w) && 0 <= j < |w.enemies|
  {
    exists k :: lo <= k < |w.towers| && 0 <= k && w.towerTypes[k] == FreezeTower && Reaches(w, k, j)
  }

  /** Only the two freeze stamps of the enemies may differ between a and b. */
  predicate SameOutsideStamps(a: World, b: World)
  {
    a.(enemyFreezeEnd := b.enemyFreezeEnd, enemyLastFreezeTime := b.enemyLastFreezeTime) == b
    && |a.enemyFreezeEnd| == |b.enemyFreezeEnd| && |a.enemyLastFreezeTime| == |b.enemyLastFreezeTime|
  }

  /** Enemy j after a freeze at `now`. */
  function FreezeEnemy(w: World, j: int, now: int): (r: World)
    requires Aligned(w) && 0 <= j < |w.enemies|
    ensures Aligned(r) && SameOutsideStamps(r, w)
  {
    w.(enemyFreezeEnd := w.enemyFreezeEnd[j := now + FREEZE_DURATION],
       enemyLastFreezeTime := w.enemyLastFreezeTime[j := now])
  }

  /** The inner loop: tower i against the enemies from j on. */
  function FreezeByTower(w: World, i: int, now: int, j: nat): (r: World)
    requires Aligned(w) && 0 <= i < |w.towers| && j <= |w.enemies|
    ensures Aligned(r) && SameOutsideStamps(r, w)
    decreases |w.enemies| - j
  {
    if j == |w.enemies| then w
    else if Reaches(w, i, j) && Freezable(w.enemyFreezeEnd[j], w.enemyLastFreezeTime[j], now) then
      FreezeByTower(FreezeEnemy(w, j, now), i, now, j + 1)
    else FreezeByTower(w, i, now, j + 1)
  }

  /** The outer loop: the towers from i on. */
  function FreezeFrom(w: World, now: int, i: nat): (r: World)
    requires Aligned(w) && i <= |w.towers|
    ensures Aligned(r) && SameOutsideStamps(r, w)
    decreases |w.towers| - i
  {
    if i == |w.towers| then w
    else if w.towerTypes[i] == FreezeTower then FreezeFrom(FreezeByTower(w, i, now, 0), now, i + 1)
    else FreezeFrom(w, now, i + 1)
  }

  /** Enemy j of r carries the stamps of a freeze applied at `now`. */
  predicate FrozenAt(r: World, j: int, now: int)
    requires Aligned(r) && 0 <= j < |r.enemies|
  {
    r.enemyFreezeEnd[j] == now + FREEZE_DURATION && r.enemyLastFreezeTime[j] == now
  }

  /** Enemy j has the same stamps in w and r. */
  predicate StampsKept(w: World, r: World, j: int)
    requires Aligned(w) && Aligned(r) && 0 <= j < |w.enemies| && |r.enemies| == |w.enemies|
  {
    r.enemyFreezeEnd[j] == w.enemyFreezeEnd[j] && r.enemyLastFreezeTime[j] == w.enemyLastFreezeTime[j]
  }

  /** Tower i, seen from the inner loop, freezes enemy j. */
  predicate TowerFreezes(w: World, i: int, now: int, j: int)
    requires Aligned(w) && 0 <= i < |w.towers| && 0 <= j < |w.enemies|
  {
    Reaches(w, i, j) && Freezable(w.enemyFreezeEnd[j], w.enemyLastFreezeTime[j], now)
  }

  /** The inner loop from enemy j0 on freezes exactly the enemies from j0 on
      that tower i reaches and that can be frozen. */
  lemma {:induction false} FreezeByTowerSpec(w: World, i: int, now: int, j0: nat)
    requires Aligned(w) && 0 <= i < |w.towers| && j0 <= |w.enemies|
    ensures forall j :: j0 <= j < |w.enemies| && TowerFreezes(w, i, now, j) ==>
      FrozenAt(FreezeByTower(w, i, now, j0), j, now)
    ensures forall j :: 0 <= j < |w.enemies| && !(j0 <= j && TowerFreezes(w, i, now, j)) ==>
      StampsKept(w, FreezeByTower(w, i, now, j0), j)
    decreases |w.enemies| - j0
  {
    if j0 < |w.enemies| {
      if TowerFreezes(w, i, now, j0) {
        var w' := FreezeEnemy(w, j0, now);
        var r := FreezeByTower(w, i, now, j0);
        assert r == FreezeByTower(w', i, now, j0 + 1);
        FreezeByTowerSpec(w', i, now, j0 + 1);
        assert w'.towers == w.towers && w'.enemies == w.enemies;
        forall j | 0 <= j < |w.enemies|
          ensures j0 <= j && TowerFreezes(w, i, now, j) ==> FrozenAt(r, j, now)
          ensures !(j0 <= j && TowerFreezes(w, i, now, j)) ==> StampsKept(w, r, j)
        {
          if j == j0 {
            assert StampsKept(w', r, j);
          } else {
            assert TowerFreezes(w', i, now, j) == TowerFreezes(w, i, now, j);
            assert StampsKept(w, w', j);
          }
        }
      } else {
        FreezeByTowerSpec(w, i, now, j0 + 1);
      }
    }
  }

  /** Some freeze tower numbered lo or above freezes enemy j. */
  predicate FreezesFrom(w: World, now: int, j: int, lo: int)
    requires Aligned(w) && 0 <= j < |w.enemies|
  {
    Freezable(w.enemyFreezeEnd[j], w.enemyLastFreezeTime[j], now) && ReachedFrom(w, j, lo)
  }

  /** The nested loops from tower i on freeze exactly the freezable enemies that
      a freeze tower numbered i or above reaches: a later tower does not
      re-freeze an enemy an earlier one froze, since it is then frozen. */
  lemma {:induction false} FreezeFromSpec(w: World, now: int, i: nat)
    requires Aligned(w) && i <= |w.towers|
    ensures forall j :: 0 <= j < |w.enemies| && FreezesFrom(w, now, j, i) ==>
      FrozenAt(FreezeFrom(w, now, i), j, now)
    ensures forall j :: 0 <= j < |w.enemies| && !FreezesFrom(w, now, j, i) ==>
      StampsKept(w, FreezeFrom(w, now, i), j)
    decreases |w.towers| - i
  {
    if i < |w.towers| {
      var r := FreezeFrom(w, now, i);
      if w.towerTypes[i] == FreezeTower {
        var w1 := FreezeByTower(w, i, now, 0);
        FreezeByTowerSpec(w, i, now, 0);
        FreezeFromSpec(w1, now, i + 1);
        forall j | 0 <= j < |w.enemies|
          ensures FreezesFrom(w, now, j, i) ==> FrozenAt(r, j, now)
          ensures !FreezesFrom(w, now, j, i) ==> StampsKept(w, r, j)
        {
          assert r == FreezeFrom(w1, now, i + 1);
          assert w1.towers == w.towers && w1.towerTypes == w.towerTypes && w1.enemies == w.enemies;
          assert ReachedFrom(w1, j, i + 1) == ReachedFrom(w, j, i + 1);
          if TowerFreezes(w, i, now, j) {
            assert FrozenAt(w1, j, now);
            assert !FreezesFrom(w1, now, j, i + 1);
            assert StampsKept(w1, r, j);
            assert ReachedFrom(w, j, i);
          } else {
            assert StampsKept(w, w1, j);
            if ReachedFrom(w, j, i) && !ReachedFrom(w, j, i + 1) {
              var k :| i <= k < |w.towers| && 0 <= k && w.towerTypes[k] == FreezeTower && Reaches(w, k, j);
              assert k == i;
            }
            assert FreezesFrom(w1, now, j, i + 1) == FreezesFrom(w, now, j, i);
          }
        }
      } else {
        FreezeFromSpec(w, now, i + 1);
        forall j | 0 <= j < |w.enemies|
          ensures ReachedFrom(w, j, i) == ReachedFrom(w, j, i + 1)
        {
          if ReachedFrom(w, j, i) {
            var k :| i <= k < |w.towers| && 0 <= k && w.towerTypes[k] == FreezeTower && Reaches(w, k, j);
            assert k != i;
          }
        }
      }
    }
  }

  /** The freeze-tower loop of `updateGame`. */
  function FreezePass(w: World, now: int): (r: World)
    requires Aligned(w)
    ensures Aligned(r) && SameOutsideStamps(r, w)
  {
    FreezeFrom(w, now, 0)
  }

  /** Enemy j is frozen by the pass exactly when some freeze tower reaches it,
      it is not frozen and its last freeze is more than FREEZE_PROTECTION ms ago;
      a freeze sets the freeze end to now + FREEZE_DURATION and the last-freeze
      stamp to now. Nothing else changes. */
  lemma FreezePassSpec(w: World, now: int)
    requires Aligned(w)
    ensures forall j :: 0 <= j < |w.enemies| && FreezesFrom(w, now, j, 0) ==> FrozenAt(FreezePass(w, now), j, now)
    ensures forall j :: 0 <= j < |w.enemies| && !FreezesFrom(w, now, j, 0) ==> StampsKept(w, FreezePass(w, now), j)
  {
    FreezeFromSpec(w, now, 0);
  }

  /** No enemy is frozen again within FREEZE_PROTECTION ms of its previous
      freeze, however long a freeze tower keeps it in range. */
  lemma NoRefreezeWithinProtection(w: World, now: int, j: int)
    requires Aligned(w) && 0 <= j < |w.enemies|
    requires now - w.enemyLastFreezeTime[j] <= FREEZE_PROTECTION
    ensures FreezePass(w, now).enemyFreezeEnd[j] == w.enemyFreezeEnd[j]
    ensures FreezePass(w, now).enemyLastFreezeTime[j] == w.enemyLastFreezeTime[j]
  {
    FreezePassSpec(w, now);
    assert StampsKept(w, FreezePass(w, now), j);
  }

  /** A freeze tower standing next to an enemy that can be frozen freezes it. */
  lemma FreezeTowerInRangeFreezes(w: World, now: int, i: int, j: int)
    requires Aligned(w) && 0 <= i < |w.towers| && 0 <= j < |w.enemies|
    requires w.towerTypes[i] == FreezeTower && Reaches(w, i, j)
    requires Freezable(w.enemyFreezeEnd[j], w.enemyLastFreezeTime[j], now)
    ensures FreezePass(w, now).enemyFreezeEnd[j] == now + FREEZE_DURATION
    ensures FreezePass(w, now).enemyLastFreezeTime[j] == now
  {
    FreezePassSpec(w, now);
    assert ReachedFrom(w, j, 0);
    assert FrozenAt(FreezePass(w, now), j, now);
  }
}
