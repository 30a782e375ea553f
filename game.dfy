/** The game's module-level state (the player, the meteor and bullet groups
    and the score) and the main loop: each frame updates every sprite,
    resolves collisions and ends the game when health is gone. */
module Game {
  import opened Settings
  import opened Options
  import opened Groups
  import BulletRules
  import PlayerRules
  import MeteorRules
  import opened Sprites

  /** The states of the meteors of a group, in group order. */
  function MeteorStates(ms: seq<Meteor>): (r: seq<MeteorRules.MeteorState>)
    reads ms
    ensures |r| == |ms|
  {
    seq(|ms|, i requires 0 <= i < |ms| reads ms => ms[i].State())
  }

  /** The states of the bullets of a group, in group order. */
  function BulletStates(bs: seq<Bullet>): (r: seq<BulletRules.BulletState>)
    reads bs
    ensures |r| == |bs|
  {
    seq(|bs|, k requires 0 <= k < |bs| reads bs => bs[k].State())
  }

  /** `pygame.sprite.groupcollide(all_meteors, all_bullets, True, True)` for a
      given overlap test, on meteors `ms` in states `mst` and bullets `bs` in
      states `bst`: the meteors are taken in group order, and each one that
      overlaps a bullet still in the group is killed together with all such
      bullets. Returns the killed meteors in order (the keys of the result)
      and the killed bullets. */
  function GroupCollide(ms: seq<Meteor>, mst: seq<MeteorRules.MeteorState>,
                        bs: seq<Bullet>, bst: seq<BulletRules.BulletState>,
                        overlap: (MeteorRules.MeteorState, BulletRules.BulletState) -> bool)
    : (r: (seq<Meteor>, set<Bullet>))
    requires |mst| == |ms| && |bst| == |bs|
    ensures Elements(r.0) <= Elements(ms)
    ensures r.1 <= Elements(bs)
    ensures Distinct(ms) ==> Distinct(r.0)
    decreases |ms|
  {
    if ms == [] then ([], {})
    else
      var n := |ms| - 1;
      var earlier := GroupCollide(ms[..n], mst[..n], bs, bst, overlap);
      var hitting := set k | 0 <= k < |bs| && bs[k] !in earlier.1 && overlap(mst[n], bst[k]) :: bs[k];
      assert Elements(ms) == Elements(ms[..n]) + {ms[n]} by {
        assert ms == ms[..n] + [ms[n]];
        ElementsConcat(ms[..n], [ms[n]]);
      }
      if hitting == {} then earlier
      else
        assert Distinct(ms) ==> Distinct(ms[..n]) && ms[n] !in Elements(ms[..n]);
        ElementsConcat(earlier.0, [ms[n]]);
        (earlier.0 + [ms[n]], earlier.1 + hitting)
  }

  /** Meteor `i` is the first of the group to overlap bullet `k`. */
  ghost predicate FirstToHit(mst: seq<MeteorRules.MeteorState>, bst: seq<BulletRules.BulletState>,
                             overlap: (MeteorRules.MeteorState, BulletRules.BulletState) -> bool, i: nat, k: nat)
    requires i < |mst| && k < |bst|
  {
    overlap(mst[i], bst[k]) && forall j :: 0 <= j < i ==> !overlap(mst[j], bst[k])
  }

  /** groupcollide kills a bullet exactly when the bullet overlaps one of the
      meteors; in particular no bullet left in the group overlaps any meteor. */
  lemma {:induction false} GroupCollideBullets(ms: seq<Meteor>, mst: seq<MeteorRules.MeteorState>,
                                               bs: seq<Bullet>, bst: seq<BulletRules.BulletState>,
                                               overlap: (MeteorRules.MeteorState, BulletRules.BulletState) -> bool)
    requires |mst| == |ms| && |bst| == |bs| && Distinct(bs)
    ensures var r := GroupCollide(ms, mst, bs, bst, overlap);
            forall k :: 0 <= k < |bs| ==>
              (bs[k] in r.1 <==> exists i :: 0 <= i < |ms| && overlap(mst[i], bst[k]))
    decreases |ms|
  {
    if ms != [] {
      var n := |ms| - 1;
      GroupCollideBullets(ms[..n], mst[..n], bs, bst, overlap);
      var earlier := GroupCollide(ms[..n], mst[..n], bs, bst, overlap);
      var hitting := set k | 0 <= k < |bs| && bs[k] !in earlier.1 && overlap(mst[n], bst[k]) :: bs[k];
      var r := GroupCollide(ms, mst, bs, bst, overlap);
      assert r.1 == earlier.1 + hitting;
      forall k | 0 <= k < |bs|
        ensures bs[k] in r.1 <==> exists i :: 0 <= i < |ms| && overlap(mst[i], bst[k])
      {
        if bs[k] in earlier.1 {
          var i :| 0 <= i < n && overlap(mst[..n][i], bst[k]);
          assert overlap(mst[i], bst[k]);
        } else if overlap(mst[n], bst[k]) {
          assert bs[k] in hitting;
        } else {
          assert bs[k] !in hitting;
          forall i | 0 <= i < |ms|
            ensures !overlap(mst[i], bst[k])
          {
            if i < n {
              assert mst[..n][i] == mst[i];
            }
          }
        }
      }
    }
  }

  /** groupcollide kills a meteor exactly when it is the first of the group
      to overlap some bullet. */
  lemma {:induction false} GroupCollideMeteors(ms: seq<Meteor>, mst: seq<MeteorRules.MeteorState>,
                                               bs: seq<Bullet>, bst: seq<BulletRules.BulletState>,
                                               overlap: (MeteorRules.MeteorState, BulletRules.BulletState) -> bool)
    requires |mst| == |ms| && |bst| == |bs| && Distinct(ms) && Distinct(bs)
    ensures var r := GroupCollide(ms, mst, bs, bst, overlap);
            forall i :: 0 <= i < |ms| ==>
              (ms[i] in r.0 <==> exists k :: 0 <= k < |bs| && FirstToHit(mst, bst, overlap, i, k))
    decreases |ms|
  {
    if ms != [] {
      var n := |ms| - 1;
      var init, minit := ms[..n], mst[..n];
      assert Distinct(init);
      GroupCollideMeteors(init, minit, bs, bst, overlap);
      GroupCollideBullets(init, minit, bs, bst, overlap);
      var earlier := GroupCollide(init, minit, bs, bst, overlap);
      var hitting := set k | 0 <= k < |bs| && bs[k] !in earlier.1 && overlap(mst[n], bst[k]) :: bs[k];
      var r := GroupCollide(ms, mst, bs, bst, overlap);
      assert r.0 == if hitting == {} then earlier.0 else earlier.0 + [ms[n]];
      assert ms[n] !in Elements(init);
      forall i | 0 <= i < |ms|
        ensures ms[i] in r.0 <==> exists k :: 0 <= k < |bs| && FirstToHit(mst, bst, overlap, i, k)
      {
        if i < n {
          assert ms[i] == init[i] && ms[i] != ms[n];
          assert ms[i] in r.0 <==> ms[i] in earlier.0;
          forall k | 0 <= k < |bs|
            ensures FirstToHit(minit, bst, overlap, i, k) <==> FirstToHit(mst, bst, overlap, i, k)
          {
            assert forall j :: 0 <= j <= i ==> minit[j] == mst[j];
          }
        } else {
          assert ms[n] !in earlier.0;
          forall k | 0 <= k < |bs|
            ensures bs[k] !in earlier.1 && overlap(mst[n], bst[k]) <==> FirstToHit(mst, bst, overlap, n, k)
          {
            assert bs[k] !in earlier.1 <==> forall j :: 0 <= j < n ==> !overlap(mst[j], bst[k]) by {
              assert forall j :: 0 <= j < n ==> minit[j] == mst[j];
            }
          }
          if hitting != {} {
            var b :| b in hitting;
            var k :| 0 <= k < |bs| && bs[k] == b && bs[k] !in earlier.1 && overlap(mst[n], bst[k]);
            assert FirstToHit(mst, bst, overlap, n, k);
          } else {
            forall k | 0 <= k < |bs|
              ensures !FirstToHit(mst, bst, overlap, n, k)
            {
              assert bs[k] !in hitting;
            }
          }
        }
      }
    }
  }

  /** `pygame.sprite.spritecollide(player, all_meteors, True, collide_circle)`
      for a given crash test: the meteors in the group that hit a ship in
      state `p`. */
  function SpriteCollide(p: PlayerRules.PlayerState, ms: seq<Meteor>,
                         crash: (PlayerRules.PlayerState, MeteorRules.MeteorState) -> bool)
    : (r: set<Meteor>)
    reads ms
    ensures r <= Elements(ms)
    ensures forall m <- ms :: m in r <==> crash(p, m.State())
  {
    set m | m in ms && crash(p, m.State())
  }

  /** The bullets whose next move takes their bottom edge above the window. */
  ghost function Leaving(bs: seq<Bullet>): set<Bullet>
    reads bs
  {
    set b | b in bs && BulletRules.OffTop(BulletRules.Moved(b.State()))
  }

  /** Every meteor of the group keeps its invariant. */
  ghost predicate AllValid(ms: seq<Meteor>)
    reads ms
  {
    forall i :: 0 <= i < |ms| ==> ms[i].Valid()
  }

  /** Every bullet of the group is between the window's top and the ship. */
  ghost predicate AllInFlight(bs: seq<Bullet>)
    reads bs
  {
    forall i :: 0 <= i < |bs| ==> BulletRules.InFlight(bs[i].State())
  }

  lemma AllValidSubset(ms: seq<Meteor>, sub: seq<Meteor>)
    requires AllValid(ms)
    requires forall m <- sub :: m in ms
    ensures AllValid(sub)
  {
    forall i | 0 <= i < |sub|
      ensures sub[i].Valid()
    {
      assert sub[i] in sub;
      var j :| 0 <= j < |ms| && ms[j] == sub[i];
    }
  }

  lemma AllInFlightSubset(bs: seq<Bullet>, sub: seq<Bullet>)
    requires AllInFlight(bs)
    requires forall b <- sub :: b in bs
    ensures AllInFlight(sub)
  {
    forall i | 0 <= i < |sub|
      ensures BulletRules.InFlight(sub[i].State())
    {
      assert sub[i] in sub;
      var j :| 0 <= j < |bs| && bs[j] == sub[i];
    }
  }

  /** The k-th meteor of `ms` is the one `Meteor()` makes from the draws
      numbered `first + k`. */
  ghost predicate Spawned(ms: seq<Meteor>, now: int, spawn: nat -> MeteorRules.Draws, first: nat)
    reads ms
  {
    forall k :: 0 <= k < |ms| ==> ms[k].State() == MeteorRules.New(now, spawn(first + k))
  }

  lemma SpawnedSnoc(ms: seq<Meteor>, m: Meteor, now: int, spawn: nat -> MeteorRules.Draws, first: nat)
    requires Spawned(ms, now, spawn, first)
    requires m.State() == MeteorRules.New(now, spawn(first + |ms|))
    ensures Spawned(ms + [m], now, spawn, first)
  {
  }

  /** The meteors of `ms` not in `dead` begin the group `ms'` of eight, in
      their order, and its last `n` meteors replace the dead. */
  predicate Replaced(ms: seq<Meteor>, dead: set<Meteor>, n: nat, ms': seq<Meteor>) {
    n <= METEOR_COUNT == |ms'| && ms'[..METEOR_COUNT - n] == Remove(ms, dead)
  }

  /** The first half of `check_collisions` took the groups `ms`, `bs` to
      `ms'`, `bs'`, given groupcollide's result `g`: the killed bullets left
      the bullet group; the killed meteors left the meteor group, the others
      kept their order, and one new meteor per killed one, from the draws
      numbered from 0, joined the end of it. */
  ghost predicate ShotDown(ms: seq<Meteor>, bs: seq<Bullet>, g: (seq<Meteor>, set<Bullet>),
                           ms': seq<Meteor>, bs': seq<Bullet>, now: int, spawn: nat -> MeteorRules.Draws)
    reads ms'
  {
    Replaced(ms, Elements(g.0), |g.0|, ms') && bs' == Remove(bs, g.1)
    && Spawned(ms'[METEOR_COUNT - |g.0|..], now, spawn, 0)
  }

  /** The second half of `check_collisions` took the meteor group `ms` to
      `ms'`, given the meteors `c` that hit the ship: those left the group,
      the others kept their order, and one new meteor per hit, from the
      draws numbered from `first`, joined the end of it. */
  ghost predicate HitShip(ms: seq<Meteor>, c: set<Meteor>, ms': seq<Meteor>,
                          now: int, spawn: nat -> MeteorRules.Draws, first: nat)
    reads ms'
  {
    Replaced(ms, c, |c|, ms') && Spawned(ms'[METEOR_COUNT - |c|..], now, spawn, first)
  }

  /** What pygame, the clock, the keyboard and `random` supply to one frame. */
  datatype FrameInput = FrameInput(
    now: int,
    quit: bool,
    keys: PlayerRules.Keys,
    rotate: (nat, int) -> MeteorRules.Size,
    respawn: nat -> MeteorRules.Draws,
    spawn: nat -> MeteorRules.Draws,
    overlap: (MeteorRules.MeteorState, BulletRules.BulletState) -> bool,
    crash: (PlayerRules.PlayerState, MeteorRules.MeteorState) -> bool)

  class World {
    var player: Player
    var meteors: seq<Meteor>
    var bullets: seq<Bullet>
    var score: int

    /** The ship is on screen, there are always eight distinct meteors, each
        keeping its invariant, no bullet is in the group twice and every one
        is between the window's top and the ship, and the score is a whole
        number of hits. */
    ghost predicate Valid()
      reads this, player, meteors, bullets
    {
      Consistent() && |meteors| == METEOR_COUNT
    }

    /** All of Valid but the number of meteors, which is below eight between
        a collision and the arrival of the meteors that replace those killed. */
    ghost predicate Consistent()
      reads this, player, meteors, bullets
    {
      PlayerRules.Valid(player.State())
      && Distinct(meteors)
      && Distinct(bullets)
      && AllValid(meteors)
      && AllInFlight(bullets)
      && 0 <= score && score % HIT_SCORE == 0
    }

    /** The game's setup: the player, then eight meteors, score 0. */
    constructor (now: int, spawn: nat -> MeteorRules.Draws)
      ensures Valid() && score == 0 && bullets == []
      ensures fresh(player) && player.State() == PlayerRules.Initial(now)
      ensures forall i :: 0 <= i < |meteors| ==>
                fresh(meteors[i]) && meteors[i].State() == MeteorRules.New(now, spawn(i))
    {
      var p := new Player(now);
      var ms: seq<Meteor> := [];
      for i := 0 to METEOR_COUNT
        invariant |ms| == i && Distinct(ms)
        invariant p.State() == PlayerRules.Initial(now)
        invariant forall j :: 0 <= j < i ==>
                    fresh(ms[j]) && ms[j].State() == MeteorRules.New(now, spawn(j)) && ms[j].Valid()
      {
        var m := new Meteor(now, spawn(i));
        ms := ms + [m];
      }
      player, meteors, bullets := p, ms, [];
      score := 0;
    }

    /** `update` of every bullet already in the group; those it kills leave
        the group and the others keep their order. */
    method UpdateBullets()
      requires Distinct(bullets) && AllInFlight(bullets)
      modifies this`bullets, bullets
      ensures forall b <- old(bullets) :: b.State() == BulletRules.Moved(old(b.State()))
      ensures bullets == Remove(old(bullets), old(Leaving(bullets)))
      ensures Distinct(bullets)
      ensures AllInFlight(bullets)
    {
      ghost var all, leaving := bullets, Leaving(bullets);
      var survivors: seq<Bullet> := [];
      for i := 0 to |bullets|
        invariant bullets == all
        invariant forall j :: 0 <= j < |all| ==>
                    all[j].State() == if j < i then BulletRules.Moved(old(all[j].State())) else old(all[j].State())
        invariant survivors == Remove(all[..i], leaving)
      {
        var b := bullets[i];
        assert all[..i + 1] == all[..i] + [b];
        assert b in leaving <==> BulletRules.OffTop(BulletRules.Moved(b.State()));
        RemoveAppend(all[..i], b, leaving);
        var alive := b.Update();
        if alive {
          survivors := survivors + [b];
        }
      }
      assert all[..|all|] == all;
      RemoveDistinct(all, leaving);
      bullets := survivors;
      forall i | 0 <= i < |bullets|
        ensures BulletRules.InFlight(bullets[i].State())
      {
        var b := bullets[i];
        assert b in Elements(bullets);
        assert b in all && b !in leaving;
      }
    }

    /** `update` of every meteor; none leaves the group. */
    method UpdateMeteors(now: int, rotate: (nat, int) -> MeteorRules.Size, respawn: nat -> MeteorRules.Draws)
      requires Valid() && MeteorRules.RotationFits(rotate)
      modifies meteors
      ensures Valid()
      ensures forall i :: 0 <= i < |meteors| ==>
                meteors[i].State() == MeteorRules.Update(old(meteors[i].State()), now, rotate, respawn(i))
    {
      ghost var before := MeteorStates(meteors);
      for i := 0 to |meteors|
        invariant forall j :: 0 <= j < i ==>
                    meteors[j].State() == MeteorRules.Update(before[j], now, rotate, respawn(j))
        invariant forall j :: i <= j < |meteors| ==> meteors[j].State() == before[j]
        invariant forall j :: 0 <= j < |meteors| ==> meteors[j].Valid()
      {
        meteors[i].Update(now, rotate, respawn(i));
      }
    }

    /** `all_sprites.update()`: every meteor and every bullet already in the
        group makes its move, and the ship moves and may fire; the bullet
        fired joins the group after the others and is not moved until the
        next frame. The ship's update adds a bullet to the group and a
        bullet's update may remove that bullet, but no update reads another
        sprite's state, a removed bullet is not updated again, and the fired
        bullet is not moved in its first frame, so the order of the three
        passes does not change the outcome. */
    method UpdateSprites(now: int, keys: PlayerRules.Keys,
                         rotate: (nat, int) -> MeteorRules.Size, respawn: nat -> MeteorRules.Draws)
      returns (shot: Bullet?, ghost ship: PlayerRules.PlayerState, ghost mst: seq<MeteorRules.MeteorState>)
      requires Valid() && MeteorRules.RotationFits(rotate)
      modifies player, meteors, this`bullets, bullets
      ensures Valid() && meteors == old(meteors)
      ensures ship == player.State() && ship == PlayerRules.Update(old(player.State()), keys, now).player
      ensures forall i :: 0 <= i < |meteors| ==>
                meteors[i].State() == MeteorRules.Update(old(meteors[i].State()), now, rotate, respawn(i))
      ensures mst == MeteorStates(meteors)
               && forall i :: 0 <= i < |mst| ==> mst[i] == MeteorRules.Update(old(meteors[i].State()), now, rotate, respawn(i))
      ensures forall b <- old(bullets) :: b.State() == BulletRules.Moved(old(b.State()))
      ensures bullets == Remove(old(bullets), old(Leaving(bullets))) + (if shot == null then [] else [shot])
      ensures shot == null <==> PlayerRules.Update(old(player.State()), keys, now).bullet.None?
      ensures shot != null ==> fresh(shot) && Some(shot.State()) == PlayerRules.Update(old(player.State()), keys, now).bullet
      ensures forall i :: 0 <= i < |bullets| ==> bullets[i] in old(bullets) || fresh(bullets[i])
    {
      UpdateBullets();
      UpdateMeteors(now, rotate, respawn);
      shot := UpdatePlayer(keys, now);
      ship, mst := player.State(), MeteorStates(meteors);
    }

    /** `Player.update`, whose bullet joins the group after the others. */
    method UpdatePlayer(keys: PlayerRules.Keys, now: int) returns (shot: Bullet?)
      requires Valid()
      modifies player, this`bullets
      ensures Valid()
      ensures player.State() == PlayerRules.Update(old(player.State()), keys, now).player
      ensures bullets == old(bullets) + (if shot == null then [] else [shot])
      ensures shot == null <==> PlayerRules.Update(old(player.State()), keys, now).bullet.None?
      ensures shot != null ==> fresh(shot) && Some(shot.State()) == PlayerRules.Update(old(player.State()), keys, now).bullet
    {
      shot := player.Update(keys, now);
      if shot != null {
        bullets := bullets + [shot];
      }
    }

    /** `m = Meteor()` followed by `all_meteors.add(m)`. */
    method AddMeteor(now: int, d: MeteorRules.Draws) returns (m: Meteor)
      requires Distinct(meteors) && AllValid(meteors)
      modifies this`meteors
      ensures fresh(m) && m.State() == MeteorRules.New(now, d)
      ensures meteors == old(meteors) + [m]
      ensures Distinct(meteors) && AllValid(meteors)
    {
      m := new Meteor(now, d);
      meteors := meteors + [m];
    }

    /** The first loop of `check_collisions`: for each of `n` meteors shot
        down, a new meteor joins the group and the score rises by 10. */
    method ReplaceShotDown(now: int, spawn: nat -> MeteorRules.Draws, n: nat)
      requires Consistent()
      modifies this`meteors, this`score
      ensures |meteors| == |old(meteors)| + n && meteors[..|old(meteors)|] == old(meteors)
      ensures Consistent()
      ensures (forall k :: |old(meteors)| <= k < |meteors| ==> fresh(meteors[k]))
              && Spawned(meteors[|old(meteors)|..], now, spawn, 0)
      ensures score == old(score) + HIT_SCORE * n
      ensures forall i :: 0 <= i < |meteors| ==> meteors[i] in old(meteors) || fresh(meteors[i])
    {
      ghost var added: seq<Meteor> := [];
      for j := 0 to n
        invariant meteors == old(meteors) + added && |added| == j
        invariant Distinct(meteors) && AllValid(meteors)
        invariant (forall k :: 0 <= k < |added| ==> fresh(added[k])) && Spawned(added, now, spawn, 0)
        invariant score == old(score) + HIT_SCORE * j
      {
        score := score + HIT_SCORE;
        var m := AddMeteor(now, spawn(j));
        SpawnedSnoc(added, m, now, spawn, 0);
        added := added + [m];
      }
      assert meteors[|old(meteors)|..] == added;
    }

    /** The second loop of `check_collisions`: for each of `n` meteors that
        hit the ship, 20 damage and a new meteor in the group, made from the
        draws numbered from `first` on. */
    method ReplaceCrashed(now: int, spawn: nat -> MeteorRules.Draws, first: nat, n: nat)
      requires Consistent()
      modifies this`meteors, player
      ensures |meteors| == |old(meteors)| + n && meteors[..|old(meteors)|] == old(meteors)
      ensures Consistent()
      ensures (forall k :: |old(meteors)| <= k < |meteors| ==> fresh(meteors[k]))
              && Spawned(meteors[|old(meteors)|..], now, spawn, first)
      ensures player.State() == PlayerRules.Damaged(old(player.State()), n)
      ensures forall i :: 0 <= i < |meteors| ==> meteors[i] in old(meteors) || fresh(meteors[i])
    {
      ghost var added: seq<Meteor> := [];
      for j := 0 to n
        invariant meteors == old(meteors) + added && |added| == j
        invariant Distinct(meteors) && AllValid(meteors)
        invariant (forall k :: 0 <= k < |added| ==> fresh(added[k])) && Spawned(added, now, spawn, first)
        invariant player.State() == PlayerRules.Damaged(old(player.State()), j)
      {
        player.health := player.health - HIT_DAMAGE;
        var m := AddMeteor(now, spawn(first + j));
        SpawnedSnoc(added, m, now, spawn, first);
        added := added + [m];
      }
      assert meteors[|old(meteors)|..] == added;
    }

    /** `groupcollide(all_meteors, all_bullets, True, True)` applied to the
        groups: the meteors and bullets it returns leave them. */
    method KillShotDown(overlap: (MeteorRules.MeteorState, BulletRules.BulletState) -> bool)
      returns (hits: (seq<Meteor>, set<Bullet>))
      requires Valid()
      modifies this`meteors, this`bullets
      ensures hits == old(GroupCollide(meteors, MeteorStates(meteors), bullets, BulletStates(bullets), overlap))
      ensures |hits.0| <= METEOR_COUNT && |meteors| == METEOR_COUNT - |hits.0|
      ensures meteors == Remove(old(meteors), Elements(hits.0)) && bullets == Remove(old(bullets), hits.1)
      ensures Consistent()
      ensures (forall i :: 0 <= i < |meteors| ==> meteors[i] in old(meteors))
              && (forall i :: 0 <= i < |bullets| ==> bullets[i] in old(bullets))
    {
      hits := GroupCollide(meteors, MeteorStates(meteors), bullets, BulletStates(bullets), overlap);
      DistinctCard(hits.0);
      RemoveCount(meteors, Elements(hits.0));
      RemoveDistinct(meteors, Elements(hits.0));
      RemoveDistinct(bullets, hits.1);
      AllValidSubset(meteors, Remove(meteors, Elements(hits.0)));
      AllInFlightSubset(bullets, Remove(bullets, hits.1));
      meteors, bullets := Remove(meteors, Elements(hits.0)), Remove(bullets, hits.1);
    }

    /** The first half of `check_collisions`: groupcollide kills the meteors
        and bullets that meet, and each killed meteor is replaced by a new
        one at the end of the group and scores 10. */
    method ShootDownMeteors(now: int, overlap: (MeteorRules.MeteorState, BulletRules.BulletState) -> bool,
                            spawn: nat -> MeteorRules.Draws)
      returns (hits: (seq<Meteor>, set<Bullet>))
      requires Valid()
      modifies this`meteors, this`bullets, this`score
      ensures Valid()
      ensures hits == old(GroupCollide(meteors, MeteorStates(meteors), bullets, BulletStates(bullets), overlap))
      ensures ShotDown(old(meteors), old(bullets), hits, meteors, bullets, now, spawn)
      ensures forall i :: METEOR_COUNT - |hits.0| <= i < METEOR_COUNT ==> fresh(meteors[i])
      ensures score == old(score) + HIT_SCORE * |hits.0|
      ensures (forall i :: 0 <= i < |meteors| ==> meteors[i] in old(meteors) || fresh(meteors[i]))
              && (forall i :: 0 <= i < |bullets| ==> bullets[i] in old(bullets))
    {
      hits := KillShotDown(overlap);
      ReplaceShotDown(now, spawn, |hits.0|);
    }

    /** The second half of `check_collisions`: spritecollide kills the
        meteors that hit the ship, and each one costs 20 health and is
        replaced by a new one at the end of the group, made from the draws
        numbered from `first` on. */
    method MeteorsHitPlayer(now: int, crash: (PlayerRules.PlayerState, MeteorRules.MeteorState) -> bool,
                            spawn: nat -> MeteorRules.Draws, first: nat)
      returns (crashes: nat, ghost crashed: set<Meteor>)
      requires Valid()
      modifies this`meteors, player
      ensures Valid()
      ensures crashed == old(SpriteCollide(player.State(), meteors, crash)) && crashes == |crashed|
      ensures HitShip(old(meteors), crashed, meteors, now, spawn, first)
      ensures unchanged(old(meteors))
      ensures forall i :: METEOR_COUNT - crashes <= i < METEOR_COUNT ==> fresh(meteors[i])
      ensures player.State() == PlayerRules.Damaged(old(player.State()), crashes)
      ensures forall i :: 0 <= i < |meteors| ==> meteors[i] in old(meteors) || fresh(meteors[i])
    {
      var c := SpriteCollide(player.State(), meteors, crash);
      crashed, crashes := c, |c|;
      RemoveCount(meteors, c);
      RemoveDistinct(meteors, c);
      AllValidSubset(meteors, Remove(meteors, c));
      meteors := Remove(meteors, c);
      ReplaceCrashed(now, spawn, first, crashes);
    }

    /** `check_collisions`: bullets against meteors first, then meteors
        against the ship; the second half draws its new meteors after the
        first half's. `shotDown` is groupcollide's result, `mid` the meteor
        group between the two halves and `crashed` spritecollide's result.
        No sprite but the ship changes state. */
    method CheckCollisions(now: int,
                           overlap: (MeteorRules.MeteorState, BulletRules.BulletState) -> bool,
                           crash: (PlayerRules.PlayerState, MeteorRules.MeteorState) -> bool,
                           spawn: nat -> MeteorRules.Draws,
                           ghost ship: PlayerRules.PlayerState,
                           ghost mst: seq<MeteorRules.MeteorState>, ghost bst: seq<BulletRules.BulletState>)
      returns (hits: nat, crashes: nat,
               ghost shotDown: (seq<Meteor>, set<Bullet>), ghost mid: seq<Meteor>, ghost crashed: set<Meteor>)
      requires Valid()
      requires ship == player.State() && mst == MeteorStates(meteors) && bst == BulletStates(bullets)
      modifies this`meteors, this`bullets, this`score, player
      ensures Valid()
      ensures shotDown == GroupCollide(old(meteors), mst, old(bullets), bst, overlap) && hits == |shotDown.0|
      ensures ShotDown(old(meteors), old(bullets), shotDown, mid, bullets, now, spawn)
      ensures forall i :: METEOR_COUNT - hits <= i < METEOR_COUNT ==> fresh(mid[i])
      ensures score == old(score) + HIT_SCORE * hits
      ensures crashed == SpriteCollide(ship, mid, crash) && crashes == |crashed|
      ensures HitShip(mid, crashed, meteors, now, spawn, hits)
      ensures forall i :: METEOR_COUNT - crashes <= i < METEOR_COUNT ==> fresh(meteors[i])
      ensures player.State() == PlayerRules.Damaged(ship, crashes)
      ensures unchanged(old(meteors)) && unchanged(old(bullets))
      ensures forall i :: 0 <= i < |mst| ==> old(meteors)[i].State() == mst[i]
      ensures forall k :: 0 <= k < |bst| ==> old(bullets)[k].State() == bst[k]
      ensures forall i :: 0 <= i < |meteors| ==> meteors[i] in old(meteors) || fresh(meteors[i])
      ensures forall i :: 0 <= i < |bullets| ==> bullets[i] in old(bullets)
    {
      var shot := ShootDownMeteors(now, overlap, spawn);
      hits, shotDown, mid := |shot.0|, shot, meteors;
      crashes, crashed := MeteorsHitPlayer(now, crash, spawn, hits);
    }

    /** The game logic of one frame, `all_sprites.update()` followed by
        `check_collisions()`. The ghost outputs name what happens between
        the phases: `shot` is the bullet the ship fired, `moved` the bullet
        group after the update, `shotDown` groupcollide's result, `mid` the
        meteor group between the two halves of the collision check and
        `crashed` the meteors that hit the ship. No sprite changes after the
        update, so the states at the end are those the collision tests saw. */
    method Step(input: FrameInput)
      returns (hits: nat, crashes: nat,
               ghost shot: Bullet?, ghost moved: seq<Bullet>,
               ghost mst: seq<MeteorRules.MeteorState>, ghost bst: seq<BulletRules.BulletState>,
               ghost shotDown: (seq<Meteor>, set<Bullet>), ghost mid: seq<Meteor>, ghost crashed: set<Meteor>)
      requires Valid() && MeteorRules.RotationFits(input.rotate)
      modifies this`meteors, this`bullets, this`score, player, meteors, bullets
      ensures Valid()
      // all_sprites.update()
      ensures var u := PlayerRules.Update(old(player.State()), input.keys, input.now);
              (shot == null <==> u.bullet.None?)
              && (shot != null ==> fresh(shot))
      ensures |mst| == METEOR_COUNT
              && forall i :: 0 <= i < METEOR_COUNT ==>
                   mst[i] == MeteorRules.Update(old(meteors[i].State()), input.now, input.rotate, input.respawn(i))
      ensures moved == Remove(old(bullets), old(Leaving(bullets))) + (if shot == null then [] else [shot])
      ensures |bst| == |moved|
              && (forall k :: 0 <= k < |moved| && moved[k] in old(bullets) ==>
                    bst[k] == BulletRules.Moved(old(moved[k].State())))
              && (shot != null ==> Some(bst[|moved| - 1]) == PlayerRules.Update(old(player.State()), input.keys, input.now).bullet)
      // check_collisions: bullets against meteors, then meteors against the ship
      ensures shotDown == GroupCollide(old(meteors), mst, moved, bst, input.overlap) && hits == |shotDown.0|
      ensures forall i :: 0 <= i < METEOR_COUNT ==> old(meteors)[i].State() == mst[i]
      ensures forall k :: 0 <= k < |moved| ==> moved[k].State() == bst[k]
      ensures ShotDown(old(meteors), moved, shotDown, mid, bullets, input.now, input.spawn)
      ensures forall i :: METEOR_COUNT - hits <= i < METEOR_COUNT ==> fresh(mid[i])
      ensures score == old(score) + HIT_SCORE * hits
      ensures var p := PlayerRules.Update(old(player.State()), input.keys, input.now).player;
              crashed == SpriteCollide(p, mid, input.crash) && crashes == |crashed|
              && player.State() == PlayerRules.Damaged(p, crashes)
      ensures HitShip(mid, crashed, meteors, input.now, input.spawn, hits)
      ensures forall i :: METEOR_COUNT - crashes <= i < METEOR_COUNT ==> fresh(meteors[i])
      ensures player.health == old(player.health) - HIT_DAMAGE * crashes
      ensures forall i :: 0 <= i < |meteors| ==> meteors[i] in old(meteors) || fresh(meteors[i])
      ensures forall i :: 0 <= i < |bullets| ==> bullets[i] in old(bullets) || fresh(bullets[i])
    {
      ghost var ship;
      shot, ship, mst := UpdateSprites(input.now, input.keys, input.rotate, input.respawn);
      moved, bst := bullets, BulletStates(bullets);
      hits, crashes, shotDown, mid, crashed := CheckCollisions(input.now, input.overlap, input.crash, input.spawn, ship, mst, bst);
    }

    /** One pass of the main loop: the events are read, the frame's logic
        runs, and a ship at 0 health or below ends the game. `running` is
        false exactly when a quit event came or the ship has no health left
        after the frame. The frame itself is the one `Step` describes, with
        the same ghost outputs naming the states between its phases, so that
        `hits` and `crashes` are the sizes of the collision results. */
    method Pass(input: FrameInput)
      returns (running: bool, hits: nat, crashes: nat,
               ghost shot: Bullet?, ghost moved: seq<Bullet>,
               ghost mst: seq<MeteorRules.MeteorState>, ghost bst: seq<BulletRules.BulletState>,
               ghost shotDown: (seq<Meteor>, set<Bullet>), ghost mid: seq<Meteor>, ghost crashed: set<Meteor>)
      requires Valid() && MeteorRules.RotationFits(input.rotate)
      modifies this`meteors, this`bullets, this`score, player, meteors, bullets
      ensures running <==> !input.quit && !PlayerRules.Defeated(player.State())
      ensures Valid()
      // all_sprites.update()
      ensures var u := PlayerRules.Update(old(player.State()), input.keys, input.now);
              (shot == null <==> u.bullet.None?)
              && (shot != null ==> fresh(shot))
      ensures |mst| == METEOR_COUNT
              && forall i :: 0 <= i < METEOR_COUNT ==>
                   mst[i] == MeteorRules.Update(old(meteors[i].State()), input.now, input.rotate, input.respawn(i))
      ensures moved == Remove(old(bullets), old(Leaving(bullets))) + (if shot == null then [] else [shot])
      ensures |bst| == |moved|
              && (forall k :: 0 <= k < |moved| && moved[k] in old(bullets) ==>
                    bst[k] == BulletRules.Moved(old(moved[k].State())))
              && (shot != null ==> Some(bst[|moved| - 1]) == PlayerRules.Update(old(player.State()), input.keys, input.now).bullet)
      // check_collisions: bullets against meteors, then meteors against the ship
      ensures shotDown == GroupCollide(old(meteors), mst, moved, bst, input.overlap) && hits == |shotDown.0|
      ensures forall i :: 0 <= i < METEOR_COUNT ==> old(meteors)[i].State() == mst[i]
      ensures forall k :: 0 <= k < |moved| ==> moved[k].State() == bst[k]
      ensures ShotDown(old(meteors), moved, shotDown, mid, bullets, input.now, input.spawn)
      ensures forall i :: METEOR_COUNT - hits <= i < METEOR_COUNT ==> fresh(mid[i])
      ensures score == old(score) + HIT_SCORE * hits
      ensures var p := PlayerRules.Update(old(player.State()), input.keys, input.now).player;
              crashed == SpriteCollide(p, mid, input.crash) && crashes == |crashed|
              && player.State() == PlayerRules.Damaged(p, crashes)
      ensures HitShip(mid, crashed, meteors, input.now, input.spawn, hits)
      ensures forall i :: METEOR_COUNT - crashes <= i < METEOR_COUNT ==> fresh(meteors[i])
      ensures player.health == old(player.health) - HIT_DAMAGE * crashes
      ensures forall i :: 0 <= i < |meteors| ==> meteors[i] in old(meteors) || fresh(meteors[i])
      ensures forall i :: 0 <= i < |bullets| ==> bullets[i] in old(bullets) || fresh(bullets[i])
    {
      running := true;
      if input.quit {
        running := false;
      }
      hits, crashes, shot, moved, mst, bst, shotDown, mid, crashed := Step(input);
      if player.health <= 0 {
        running := false;
      }
    }

    /** The main loop, `while running:`, given one input per frame: it ends
        after the first frame that brings a quit event or leaves the ship
        without health, or when the inputs run out. Until then every frame
        was free of quit events; the score has risen by 10 and health has
        fallen by 20 for each hit and crash it reports. The contract does
        not tie those counts to the frames' collisions; each `Pass` does. */
    method Play(inputs: seq<FrameInput>) returns (frames: nat, hits: nat, crashes: nat)
      requires Valid()
      requires forall i :: 0 <= i < |inputs| ==> MeteorRules.RotationFits(inputs[i].rotate)
      modifies this`meteors, this`bullets, this`score, player, meteors, bullets
      ensures Valid() && frames <= |inputs|
      ensures forall i :: 0 <= i < frames - 1 ==> !inputs[i].quit
      ensures frames < |inputs| ==> 0 < frames && (inputs[frames - 1].quit || PlayerRules.Defeated(player.State()))
      ensures score == old(score) + HIT_SCORE * hits
      ensures player.health == old(player.health) - HIT_DAMAGE * crashes
    {
      var running := true;
      frames, hits, crashes := 0, 0, 0;
      while running && frames < |inputs|
        invariant Valid() && frames <= |inputs| && player == old(player)
        invariant forall i :: 0 <= i < frames - 1 ==> !inputs[i].quit
        invariant frames == 0 ==> running
        invariant 0 < frames ==> (running <==> !inputs[frames - 1].quit && !PlayerRules.Defeated(player.State()))
        invariant score == old(score) + HIT_SCORE * hits
        invariant player.health == old(player.health) - HIT_DAMAGE * crashes
        invariant forall i :: 0 <= i < |meteors| ==> meteors[i] in old(meteors) || fresh(meteors[i])
        invariant forall i :: 0 <= i < |bullets| ==> bullets[i] in old(bullets) || fresh(bullets[i])
        decreases |inputs| - frames
      {
        frames := frames + 1;
        assert forall i :: 0 <= i < frames - 1 ==> !inputs[i].quit;
        var shotDown, crashed;
        ghost var shot, moved, mst, bst, killed, mid, hitShip;
        running, shotDown, crashed, shot, moved, mst, bst, killed, mid, hitShip := Pass(inputs[frames - 1]);
        assert running <==> !inputs[frames - 1].quit && !PlayerRules.Defeated(player.State());
        hits, crashes := hits + shotDown, crashes + crashed;
      }
    }
  }
}
