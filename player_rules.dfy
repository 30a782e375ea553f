/** The rules of `Player`: horizontal movement from the arrow keys, clamping
    to the window, and a fire button limited to one shot per cooldown. */
module PlayerRules {
  import opened Settings
  import opened Options
  import BulletRules

  /** The ship's rectangle by its left and top edges (its size is fixed), its
      horizontal speed for this frame, its health and the time of its last shot. */
  datatype PlayerState = PlayerState(x: int, y: int, speedX: int, health: int, lastBulletShot: int)

  /** The keys held in this frame. */
  datatype Keys = Keys(left: bool, right: bool, space: bool)

  /** The player after a call that may have fired, and the bullet it fired. */
  datatype Shot = Shot(player: PlayerState, bullet: Option<BulletRules.BulletState>)

  function Right(p: PlayerState): int {
    p.x + PLAYER_WIDTH
  }

  function CenterX(p: PlayerState): int {
    CenterOf(p.x, PLAYER_WIDTH)
  }

  /** The ship lies within the window horizontally, at its fixed height, and
      has never been healed. */
  predicate Valid(p: PlayerState) {
    0 <= p.x && Right(p) <= WIDTH
    && p.y + PLAYER_HEIGHT == PLAYER_BOTTOM
    && p.health <= PLAYER_HEALTH
  }

  /** `Player()`: centred horizontally, bottom edge 10 pixels above the
      window's, at rest, full health, and its last shot dated now. */
  function Initial(now: int): (p: PlayerState)
    ensures Valid(p)
    ensures CenterX(p) == WIDTH / 2 && p.y + PLAYER_HEIGHT == PLAYER_BOTTOM
    ensures p.speedX == 0 && p.health == PLAYER_HEALTH && p.lastBulletShot == now
  {
    PlayerState(StartForCenter(WIDTH / 2, PLAYER_WIDTH), PLAYER_BOTTOM - PLAYER_HEIGHT, 0, PLAYER_HEALTH, now)
  }

  /** `movement`: the speed is reset, set by RIGHT and then by LEFT, and the
      ship moves by it. */
  function Movement(p: PlayerState, keys: Keys): (r: PlayerState)
    ensures r.speedX == (if keys.left then -PLAYER_SPEED else if keys.right then PLAYER_SPEED else 0)
    ensures r.x == p.x + r.speedX
    ensures r.(x := p.x, speedX := p.speedX) == p
  {
    var speed0 := 0;
    var speed1 := if keys.right then PLAYER_SPEED else speed0;
    var speed2 := if keys.left then -PLAYER_SPEED else speed1;
    p.(speedX := speed2, x := p.x + speed2)
  }

  /** `boundaries`: first the right edge, then the left edge is pulled back
      into the window. */
  function Boundaries(p: PlayerState): (r: PlayerState)
    ensures 0 <= r.x && Right(r) <= WIDTH
    ensures 0 <= p.x && Right(p) <= WIDTH ==> r == p
    ensures Right(p) > WIDTH ==> Right(r) == WIDTH
    ensures p.x < 0 ==> r.x == 0
    ensures r == p.(x := r.x)
  {
    var x1 := if Right(p) > WIDTH then WIDTH - PLAYER_WIDTH else p.x;
    var x2 := if x1 < 0 then 0 else x1;
    p.(x := x2)
  }

  lemma BoundariesIdempotent(p: PlayerState)
    ensures Boundaries(Boundaries(p)) == Boundaries(p)
  {
  }

  /** The time gate of `shoot_bullet`: strictly more than the cooldown since the last shot. */
  predicate CanShoot(p: PlayerState, now: int) {
    now - p.lastBulletShot > FIRE_COOLDOWN
  }

  /** `shoot_bullet`: when the gate is open, record the time and fire one
      bullet centred on the ship with its bottom edge on the ship's top. */
  function ShootBullet(p: PlayerState, now: int): (r: Shot)
    ensures r.bullet.Some? <==> now - p.lastBulletShot > FIRE_COOLDOWN
    ensures r.bullet.Some? ==> r.player == p.(lastBulletShot := now)
    ensures r.bullet.Some? ==> CenterOf(r.bullet.value.x, BULLET_WIDTH) == CenterX(p)
                               && BulletRules.Bottom(r.bullet.value) == p.y
    ensures r.bullet.None? ==> r.player == p
  {
    if CanShoot(p, now) then
      Shot(p.(lastBulletShot := now), Some(BulletRules.BulletAt(CenterX(p), p.y)))
    else
      Shot(p, None)
  }

  /** `Player.update`: move, clamp, and fire if the space key is held. */
  function Update(p: PlayerState, keys: Keys, now: int): (r: Shot)
    ensures Valid(p) ==> Valid(r.player)
    ensures 0 <= r.player.x && Right(r.player) <= WIDTH
    ensures r.player.y == p.y && r.player.health == p.health
    ensures r.bullet.Some? <==> keys.space && CanShoot(p, now)
    ensures r.player.lastBulletShot == if r.bullet.Some? then now else p.lastBulletShot
    ensures r.player.speedX == Movement(p, keys).speedX
    ensures r.player.x == Boundaries(Movement(p, keys)).x
    ensures r.bullet.Some? ==> CenterOf(r.bullet.value.x, BULLET_WIDTH) == CenterX(r.player)
                               && BulletRules.Bottom(r.bullet.value) == r.player.y
  {
    var moved := Boundaries(Movement(p, keys));
    if keys.space then ShootBullet(moved, now) else Shot(moved, None)
  }

  /** `player.health -= 20` once for every meteor that hits the ship. The
      result is not clamped at 0. */
  function Damaged(p: PlayerState, crashes: nat): (r: PlayerState)
    ensures p.health - r.health == HIT_DAMAGE * crashes
    ensures r.health < p.health <==> crashes > 0
    ensures r.(health := p.health) == p
    ensures Valid(p) ==> Valid(r)
  {
    p.(health := p.health - HIT_DAMAGE * crashes)
  }

  /** The end-of-frame test of the main loop. */
  predicate Defeated(p: PlayerState) {
    p.health <= 0
  }

  /** From full health, the first four crashes leave the game running and the
      fifth ends it with health exactly 0. */
  lemma FiveCrashesEndTheGame(p: PlayerState)
    requires p.health == PLAYER_HEALTH
    ensures forall k: nat :: k < 5 ==> !Defeated(Damaged(p, k))
    ensures Damaged(p, 5).health == 0 && Defeated(Damaged(p, 5))
  {
  }

  /** Health is not clamped: two meteors hitting a ship at 20 health in one
      frame leave it at -20. */
  lemma HealthNotClamped(p: PlayerState)
    requires p.health == HIT_DAMAGE
    ensures Damaged(p, 2).health == -HIT_DAMAGE < 0
  {
  }

  /** One frame's time stamp and keys. */
  datatype Frame = Frame(keys: Keys, now: int)

  /** The times at which the ship fires over a run of frames. */
  function ShotTimes(p: PlayerState, frames: seq<Frame>): seq<int>
    decreases |frames|
  {
    if frames == [] then []
    else
      var r := Update(p, frames[0].keys, frames[0].now);
      (if r.bullet.Some? then [frames[0].now] else []) + ShotTimes(r.player, frames[1..])
  }

  /** Each shot comes strictly more than the cooldown after the one before it
      (the first: after `last`). */
  predicate Spaced(last: int, shots: seq<int>) {
    (|shots| > 0 ==> shots[0] - last > FIRE_COOLDOWN)
    && forall i :: 0 < i < |shots| ==> shots[i] - shots[i - 1] > FIRE_COOLDOWN
  }

  lemma SpacedCons(last: int, shot: int, rest: seq<int>)
    requires shot - last > FIRE_COOLDOWN
    requires Spaced(shot, rest)
    ensures Spaced(last, [shot] + rest)
  {
    var shots := [shot] + rest;
    forall i | 0 < i < |shots|
      ensures shots[i] - shots[i - 1] > FIRE_COOLDOWN
    {
      assert shots[i] == rest[i - 1];
      if i > 1 {
        assert shots[i - 1] == rest[i - 2];
      }
    }
  }

  /** Holding the fire key cannot fire twice within the cooldown, whatever the
      frame times: successive shots are more than 200 ms apart. */
  lemma {:induction false} ShotsSpaced(p: PlayerState, frames: seq<Frame>)
    ensures Spaced(p.lastBulletShot, ShotTimes(p, frames))
    decreases |frames|
  {
    if frames != [] {
      var r := Update(p, frames[0].keys, frames[0].now);
      ShotsSpaced(r.player, frames[1..]);
      var rest := ShotTimes(r.player, frames[1..]);
      if r.bullet.Some? {
        SpacedCons(p.lastBulletShot, frames[0].now, rest);
      } else {
        assert ShotTimes(p, frames) == rest;
      }
    }
  }
}
