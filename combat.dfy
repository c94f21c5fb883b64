/** `handleTowerAttacks`: every attack tower, in order, shoots the nearest enemy
    strictly inside its range, for TOWER_DAMAGE; a kill removes the enemy from
    all five vectors and pays BOUNTY. */
module Combat {
  import opened Geometry
  import opened Entities

  /** TOWER_RANGE squared: the initial `minDist` of the scan, compared as a square. */
  const RANGE_SQ: real := (TOWER_RANGE * TOWER_RANGE) as real

  /** The scan of the first n enemies from tower position t: the index of the
      best target so far (-1 for none) and the squared distance to beat. An
      enemy replaces the current choice only if it is strictly nearer. */
  function Scan(t: Point, es: seq<Point>, n: nat): (r: (int, real))
    requires n <= |es|
  {
    if n == 0 then (-1, RANGE_SQ)
    else
      var prev := Scan(t, es, n - 1);
      var d := DistSq(t, es[n - 1]);
      if d < prev.1 then (n - 1, d) else prev
  }

  /** After scanning n enemies, the choice is the lowest-numbered enemy among
      the nearest ones strictly inside the range, or -1 if none is inside it. */
  lemma {:induction false} ScanNearest(t: Point, es: seq<Point>, n: nat)
    requires n <= |es|
    ensures -1 <= Scan(t, es, n).0 < n
    ensures Scan(t, es, n).0 == -1 ==> Scan(t, es, n).1 == RANGE_SQ
    ensures Scan(t, es, n).0 == -1 ==> forall j :: 0 <= j < n ==> !Within(t, es[j], TOWER_RANGE)
    ensures Scan(t, es, n).0 >= 0 ==> Scan(t, es, n).1 == DistSq(t, es[Scan(t, es, n).0]) < RANGE_SQ
    ensures forall j :: 0 <= j < n ==> Scan(t, es, n).1 <= DistSq(t, es[j])
    ensures forall j :: 0 <= j < Scan(t, es, n).0 ==> Scan(t, es, n).1 < DistSq(t, es[j])
  {
    if n > 0 {
      ScanNearest(t, es, n - 1);
    }
  }

  /** The enemy attack tower at position t shoots: -1 when no enemy is strictly
      within TOWER_RANGE; otherwise an enemy strictly within range that no other
      enemy is strictly nearer to, and nearer than every enemy before it (ties
      go to the lowest index). */
  function Target(t: Point, es: seq<Point>): (k: int)
    ensures -1 <= k < |es|
    ensures k == -1 <==> forall j :: 0 <= j < |es| ==> !Within(t, es[j], TOWER_RANGE)
    ensures k >= 0 ==> Within(t, es[k], TOWER_RANGE)
    ensures k >= 0 ==> forall j :: 0 <= j < |es| ==> DistSq(t, es[k]) <= DistSq(t, es[j])
    ensures k >= 0 ==> forall j :: 0 <= j < k ==> DistSq(t, es[k]) < DistSq(t, es[j])
  {
    ScanNearest(t, es, |es|);
    Scan(t, es, |es|).0
  }

  /** Everything but the enemy vectors, the money and the bullets. */
  predicate SameOutsideCombat(a: World, b: World)
  {
    a.(enemies := b.enemies, enemyHealth := b.enemyHealth, enemyPathIndex := b.enemyPathIndex,
       enemyFreezeEnd := b.enemyFreezeEnd, enemyLastFreezeTime := b.enemyLastFreezeTime,
       money := b.money, bullets := b.bullets) == b
  }

  /** Tower i shoots enemy k at `now`: a bullet from the tower to the enemy's
      current position is recorded, the enemy loses exactly TOWER_DAMAGE, and
      if that leaves it at 0 or below it is removed from all five vectors and
      exactly BOUNTY is credited; otherwise only its health changes. */
  function Hit(w: World, i: int, k: int, now: int): (r: World)
    requires Aligned(w) && 0 <= i < |w.towers| && 0 <= k < |w.enemies|
    ensures Aligned(r) && SameOutsideCombat(r, w)
    ensures r.bullets == w.bullets + [Bullet(w.towers[i], w.enemies[k], now)]
    ensures w.enemyHealth[k] - TOWER_DAMAGE <= 0 ==>
      Rows(r) == Rows(w)[..k] + Rows(w)[k + 1..] && r.money == w.money + BOUNTY
    ensures w.enemyHealth[k] - TOWER_DAMAGE > 0 ==>
      Rows(r) == Rows(w)[k := Rows(w)[k].(health := w.enemyHealth[k] - TOWER_DAMAGE)] && r.money == w.money
  {
    var shot := w.(bullets := w.bullets + [Bullet(w.towers[i], w.enemies[k], now)],
                   enemyHealth := w.enemyHealth[k := w.enemyHealth[k] - TOWER_DAMAGE]);
    assert Rows(shot) == Rows(w)[k := Rows(w)[k].(health := w.enemyHealth[k] - TOWER_DAMAGE)];
    if shot.enemyHealth[k] <= 0 then
      assert Rows(shot)[..k] == Rows(w)[..k] && Rows(shot)[k + 1..] == Rows(w)[k + 1..];
      RemoveEnemy(shot, k).(money := w.money + BOUNTY)
    else shot
  }

  /** The body of the tower loop of `handleTowerAttacks` for tower i: an
      attack tower with an enemy strictly inside its range hits the nearest
      one; any other tower does nothing. */
  function AttackStep(w: World, now: int, i: int): (r: World)
    requires Aligned(w) && 0 <= i < |w.towers|
    ensures Aligned(r) && SameOutsideCombat(r, w)
  {
    if w.towerTypes[i] == AttackTower then
      var k := Target(w.towers[i], w.enemies);
      if k == -1 then w else Hit(w, i, k, now)
    else w
  }

  /** The tower loop of `handleTowerAttacks`, from tower i on. */
  function AttackFrom(w: World, now: int, i: nat): World
    requires Aligned(w) && i <= |w.towers|
    decreases |w.towers| - i
  {
    if i == |w.towers| then w
    else AttackFrom(AttackStep(w, now, i), now, i + 1)
  }

  /** Number of attack towers among types[i..]. */
  function AttackTowersFrom(types: seq<TowerType>, i: nat): nat
    requires i <= |types|
    decreases |types| - i
  {
    if i == |types| then 0 else (if types[i] == AttackTower then 1 else 0) + AttackTowersFrom(types, i + 1)
  }

  /** What the towers from i on do in one attack round: each fires at most one
      bullet, stamped `now` and starting at a tower; enemies only disappear,
      and every one that disappears pays exactly BOUNTY; surviving enemies stay
      alive and on their path; towers and the session are untouched. */
  lemma {:induction false} AttackFromSpec(w: World, now: int, i: nat, path: seq<Point>)
    requires Aligned(w) && i <= |w.towers| && EnemiesAlive(w) && PathIndicesOk(w, path)
    ensures Aligned(AttackFrom(w, now, i)) && SameOutsideCombat(AttackFrom(w, now, i), w)
    ensures |AttackFrom(w, now, i).enemies| <= |w.enemies|
    ensures AttackFrom(w, now, i).money == w.money + BOUNTY * (|w.enemies| - |AttackFrom(w, now, i).enemies|)
    ensures |w.bullets| <= |AttackFrom(w, now, i).bullets| <= |w.bullets| + AttackTowersFrom(w.towerTypes, i)
    ensures AttackFrom(w, now, i).bullets[..|w.bullets|] == w.bullets
    ensures forall b :: b in AttackFrom(w, now, i).bullets[|w.bullets|..] ==> b.startTime == now && b.startPos in w.towers
    ensures EnemiesAlive(AttackFrom(w, now, i)) && PathIndicesOk(AttackFrom(w, now, i), path)
    decreases |w.towers| - i
  {
    if i < |w.towers| {
      var w1 := AttackStep(w, now, i);
      var r := AttackFrom(w, now, i);
      assert r == AttackFrom(w1, now, i + 1);
      var k := Target(w.towers[i], w.enemies);
      if w.towerTypes[i] == AttackTower && k != -1 {
        assert w1 == Hit(w, i, k, now);
        HitKeepsInvariants(w, i, k, now, path);
        AttackFromSpec(w1, now, i + 1, path);
        BulletsExtend(w.bullets, w1.bullets, r.bullets, now, w.towers);
      } else {
        assert w1 == w;
        AttackFromSpec(w, now, i + 1, path);
      }
    }
  }

  /** A hit leaves only living enemies, on their path. */
  lemma HitKeepsInvariants(w: World, i: int, k: int, now: int, path: seq<Point>)
    requires Aligned(w) && 0 <= i < |w.towers| && 0 <= k < |w.enemies|
    requires EnemiesAlive(w) && PathIndicesOk(w, path)
    ensures EnemiesAlive(Hit(w, i, k, now)) && PathIndicesOk(Hit(w, i, k, now), path)
  {
    var w1 := Hit(w, i, k, now);
    forall j | 0 <= j < |w1.enemies| ensures w1.enemyHealth[j] > 0 && 0 <= w1.enemyPathIndex[j] < |path| - 1 {
      if w.enemyHealth[k] - TOWER_DAMAGE <= 0 {
        assert Rows(w1)[j] == (if j < k then Rows(w)[j] else Rows(w)[j + 1]);
      } else {
        assert Rows(w1)[j] == (if j == k then Rows(w)[k].(health := w.enemyHealth[k] - TOWER_DAMAGE) else Rows(w)[j]);
      }
    }
  }

  /** Bullet lists that only grow at the end, by shots stamped `now` from a tower. */
  lemma BulletsExtend(a: seq<Bullet>, b: seq<Bullet>, c: seq<Bullet>, now: int, towers: seq<Point>)
    requires |b| == |a| + 1 && b[..|a|] == a && b[|a|].startTime == now && b[|a|].startPos in towers
    requires |b| <= |c| && c[..|b|] == b
    requires forall x :: x in c[|b|..] ==> x.startTime == now && x.startPos in towers
    ensures c[..|a|] == a
    ensures forall x :: x in c[|a|..] ==> x.startTime == now && x.startPos in towers
  {
    assert c[..|a|] == c[..|b|][..|a|];
    assert c[|a|..] == [b[|a|]] + c[|b|..];
  }

  /** One round of `handleTowerAttacks`. */
  function AttackPass(w: World, now: int): World
    requires Aligned(w)
  {
    AttackFrom(w, now, 0)
  }

  /** If no attack tower has an enemy strictly inside its range, a round
      changes nothing. */
  lemma {:induction false} NoTargetNoShot(w: World, now: int, i: nat)
    requires Aligned(w) && i <= |w.towers|
    requires forall t, j :: i <= t < |w.towers| && w.towerTypes[t] == AttackTower && 0 <= j < |w.enemies| ==>
      !Within(w.towers[t], w.enemies[j], TOWER_RANGE)
    ensures AttackFrom(w, now, i) == w
    decreases |w.towers| - i
  {
    if i < |w.towers| {
      NoTargetNoShot(w, now, i + 1);
    }
  }
}
