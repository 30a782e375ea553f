/** The sprite classes. Each keeps the fields the game updates in place and
    gives them as a value through State(); every method is proved to change
    State() as the corresponding rule function says. */
module Sprites {
  import opened Settings
  import opened Options
  import opened Randomness
  import BulletRules
  import PlayerRules
  import MeteorRules

  class Bullet {
    var x: int
    var y: int

    function State(): BulletRules.BulletState
      reads this
    {
      BulletRules.BulletState(x, y)
    }

    /** `Bullet(x, y)`: centred on `centerx`, bottom edge on `bottom`. */
    constructor (centerx: int, bottom: int)
      ensures State() == BulletRules.BulletAt(centerx, bottom)
    {
      x := StartForCenter(centerx, BULLET_WIDTH);
      y := bottom - BULLET_HEIGHT;
    }

    /** `Bullet.update`: move up; `alive` is false when the bullet kills itself. */
    method Update() returns (alive: bool)
      modifies this
      ensures State() == BulletRules.Moved(old(State()))
      ensures alive <==> !BulletRules.OffTop(State())
    {
      y := y + BULLET_SPEED_Y;
      alive := !(y + BULLET_HEIGHT < 0);
    }
  }

  class Player {
    var x: int
    var y: int
    var speedX: int
    var health: int
    var lastBulletShot: int

    function State(): PlayerRules.PlayerState
      reads this
    {
      PlayerRules.PlayerState(x, y, speedX, health, lastBulletShot)
    }

    /** `Player()`, with `now` for the clock reading. */
    constructor (now: int)
      ensures State() == PlayerRules.Initial(now)
    {
      x := StartForCenter(WIDTH / 2, PLAYER_WIDTH);
      y := PLAYER_BOTTOM - PLAYER_HEIGHT;
      speedX := 0;
      lastBulletShot := now;
      health := PLAYER_HEALTH;
    }

    /** `shoot_bullet`; the bullet it fires is returned for the caller to add
        to the sprite groups. */
    method ShootBullet(now: int) returns (b: Bullet?)
      modifies this
      ensures State() == PlayerRules.ShootBullet(old(State()), now).player
      ensures b == null <==> PlayerRules.ShootBullet(old(State()), now).bullet.None?
      ensures b != null ==> fresh(b) && Some(b.State()) == PlayerRules.ShootBullet(old(State()), now).bullet
    {
      b := null;
      if now - lastBulletShot > FIRE_COOLDOWN {
        lastBulletShot := now;
        b := new Bullet(CenterOf(x, PLAYER_WIDTH), y);
      }
    }

    /** `Player.update`. */
    method Update(keys: PlayerRules.Keys, now: int) returns (b: Bullet?)
      modifies this
      ensures State() == PlayerRules.Update(old(State()), keys, now).player
      ensures b == null <==> PlayerRules.Update(old(State()), keys, now).bullet.None?
      ensures b != null ==> fresh(b) && Some(b.State()) == PlayerRules.Update(old(State()), keys, now).bullet
    {
      Movement(keys);
      Boundaries();
      b := null;
      if keys.space {
        b := ShootBullet(now);
      }
    }

    /** `movement`. */
    method Movement(keys: PlayerRules.Keys)
      modifies this
      ensures State() == PlayerRules.Movement(old(State()), keys)
    {
      speedX := 0;
      if keys.right {
        speedX := PLAYER_SPEED;
      }
      if keys.left {
        speedX := -PLAYER_SPEED;
      }
      x := x + speedX;
    }

    /** `boundaries`. */
    method Boundaries()
      modifies this
      ensures State() == PlayerRules.Boundaries(old(State()))
    {
      if x + PLAYER_WIDTH > WIDTH {
        x := WIDTH - PLAYER_WIDTH;
      }
      if x < 0 {
        x := 0;
      }
    }
  }

  class Meteor {
    var image: nat
    var x: int
    var y: int
    var width: nat
    var height: nat
    var speedX: int
    var speedY: int
    var rotationDegree: int
    var rotationSpeed: int
    var lastRotation: int

    function State(): MeteorRules.MeteorState
      reads this
    {
      MeteorRules.MeteorState(image, x, y, width, height, speedX, speedY,
                              rotationDegree, rotationSpeed, lastRotation)
    }

    ghost predicate Valid()
      reads this
    {
      MeteorRules.Valid(State())
    }

    /** `Meteor()`, with `now` for the clock reading and `d` for the random draws. */
    constructor (now: int, d: MeteorRules.Draws)
      ensures State() == MeteorRules.New(now, d)
      ensures Valid()
    {
      var side := Choice(METEOR_SIZES, d.image);
      image := side;
      width, height := side, side;
      x := RandRange(0, WIDTH - side, d.x);
      y := RandRange(SPAWN_TOP, SPAWN_BOTTOM, d.y);
      speedY := RandRange(MIN_SPEED_Y, MAX_SPEED_Y, d.speedY);
      speedX := RandRange(MIN_SPEED_X, MAX_SPEED_X, d.speedX);
      lastRotation := now;
      rotationDegree := 0;
      rotationSpeed := RandRange(MIN_ROTATION_SPEED, MAX_ROTATION_SPEED, d.rotationSpeed);
    }

    /** `rotate`. */
    method Rotate(now: int, rotate: (nat, int) -> MeteorRules.Size)
      modifies this
      ensures State() == MeteorRules.Rotate(old(State()), now, rotate)
    {
      if now - lastRotation > ROTATION_INTERVAL {
        lastRotation := now;
        rotationDegree := (rotationDegree + rotationSpeed) % FULL_TURN;
        var centerx, centery := CenterOf(x, width), CenterOf(y, height);
        var size := rotate(image, rotationDegree);
        width, height := size.width, size.height;
        x, y := StartForCenter(centerx, width), StartForCenter(centery, height);
      }
    }

    /** `spawn_new_meteor`. */
    method SpawnNewMeteor(d: MeteorRules.Draws)
      requires width < WIDTH
      modifies this
      ensures State() == MeteorRules.Respawn(old(State()), d)
    {
      x := RandRange(0, WIDTH - width, d.x);
      y := RandRange(SPAWN_TOP, SPAWN_BOTTOM, d.y);
      speedY := RandRange(MIN_SPEED_Y, RESPAWN_MAX_SPEED_Y, d.speedY);
      speedX := RandRange(MIN_SPEED_X, MAX_SPEED_X, d.speedX);
      rotationSpeed := RandRange(MIN_ROTATION_SPEED, MAX_ROTATION_SPEED, d.rotationSpeed);
    }

    /** `Meteor.update`. */
    method Update(now: int, rotate: (nat, int) -> MeteorRules.Size, d: MeteorRules.Draws)
      requires Valid() && MeteorRules.RotationFits(rotate)
      modifies this
      ensures State() == MeteorRules.Update(old(State()), now, rotate, d)
      ensures Valid()
    {
      x := x + speedX;
      y := y + speedY;
      Rotate(now, rotate);
      if y > HEIGHT || x > WIDTH + SIDE_MARGIN || x + width < -SIDE_MARGIN {
        SpawnNewMeteor(d);
      }
    }
  }
}
