/** Bullet expiry in `updateGame`: the bullet list is rebuilt from the bullets
    younger than BULLET_LIFETIME ms, in their original order. */
module Bullets {
  import opened Entities

  /** A bullet fired at `startTime` is still shown at `now`. */
  predicate Live(b: Bullet, now: int)
  {
    now - b.startTime < BULLET_LIFETIME
  }

  /** The bullets of bs still live at `now`, in order (the list `activeBullets`
      is built from the front, so the definition peels the last bullet). */
  function LiveBullets(bs: seq<Bullet>, now: int): (r: seq<Bullet>)
  {
    if |bs| == 0 then []
    else LiveBullets(bs[..|bs| - 1], now) + (if Live(bs[|bs| - 1], now) then [bs[|bs| - 1]] else [])
  }

  /** The rebuilt list holds only live bullets, holds every live bullet of the
      old list, and is no longer than it. */
  lemma {:induction false} LiveBulletsExact(bs: seq<Bullet>, now: int)
    ensures forall b :: b in LiveBullets(bs, now) ==> b in bs && Live(b, now)
    ensures forall b :: b in bs && Live(b, now) ==> b in LiveBullets(bs, now)
    ensures |LiveBullets(bs, now)| <= |bs|
  {
    if |bs| > 0 {
      var init := bs[..|bs| - 1];
      LiveBulletsExact(init, now);
      assert bs == init + [bs[|bs| - 1]];
    }
  }

  /** Filtering distributes over concatenation, so the kept bullets keep their
      relative order. */
  lemma {:induction false} LiveBulletsConcat(a: seq<Bullet>, b: seq<Bullet>, now: int)
    ensures LiveBullets(a + b, now) == LiveBullets(a, now) + LiveBullets(b, now)
    decreases |b|
  {
    if |b| == 0 {
      assert a + b == a;
    } else {
      var b' := b[..|b| - 1];
      assert (a + b)[..|a + b| - 1] == a + b';
      assert (a + b)[|a + b| - 1] == b[|b| - 1];
      LiveBulletsConcat(a, b', now);
    }
  }

  /** A list in which every bullet is live is kept whole; so expiring twice at
      the same time is expiring once. */
  lemma {:induction false} LiveBulletsIdempotent(bs: seq<Bullet>, now: int)
    ensures LiveBullets(LiveBullets(bs, now), now) == LiveBullets(bs, now)
  {
    if |bs| > 0 {
      var init := bs[..|bs| - 1];
      var last := bs[|bs| - 1];
      LiveBulletsIdempotent(init, now);
      var tail := if Live(last, now) then [last] else [];
      LiveBulletsConcat(LiveBullets(init, now), tail, now);
      if Live(last, now) {
        assert tail[..0] == [];
        assert LiveBullets(tail, now) == LiveBullets([], now) + [last];
      }
    }
  }
}
