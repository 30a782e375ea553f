/** Screen size, sprite sizes, speeds and timings of the game, and the
    integer arithmetic of a pygame rectangle's centre. */
module Settings {

  // Window
  const WIDTH: int := 800
  const HEIGHT: int := 800

  // Player ship: a 50 x 40 image, 8 pixels per frame, 100 health points
  const PLAYER_WIDTH: nat := 50
  const PLAYER_HEIGHT: nat := 40
  const PLAYER_SPEED: int := 8
  const PLAYER_HEALTH: int := 100
  /** The ship's bottom edge sits 10 pixels above the bottom of the window. */
  const PLAYER_BOTTOM: int := HEIGHT - 10

  // Bullet: a 5 x 10 rectangle moving 10 pixels up per frame
  const BULLET_WIDTH: nat := 5
  const BULLET_HEIGHT: nat := 10
  const BULLET_SPEED_Y: int := -10

  /** Milliseconds that must have passed (strictly more) before the next shot. */
  const FIRE_COOLDOWN: int := 200
  /** Milliseconds that must have passed (strictly more) before a meteor turns again. */
  const ROTATION_INTERVAL: int := 25
  const FULL_TURN: int := 360

  /** Side lengths of the three square meteor images. */
  const METEOR_SIZES: seq<nat> := [30, 25, 35]
  /** Meteors created when the game starts; collisions and respawns keep this number. */
  const METEOR_COUNT: nat := 8
  /** A new or respawned meteor starts in [SPAWN_TOP, SPAWN_BOTTOM), above the window. */
  const SPAWN_TOP: int := -150
  const SPAWN_BOTTOM: int := -100
  /** Vertical speed of a new meteor: [MIN_SPEED_Y, MAX_SPEED_Y); of a respawned
      one: [MIN_SPEED_Y, RESPAWN_MAX_SPEED_Y). */
  const MIN_SPEED_Y: int := 2
  const MAX_SPEED_Y: int := 8
  const RESPAWN_MAX_SPEED_Y: int := 5
  /** Horizontal speed of a meteor: [MIN_SPEED_X, MAX_SPEED_X). */
  const MIN_SPEED_X: int := -3
  const MAX_SPEED_X: int := 3
  /** Degrees a meteor turns per rotation: [MIN_ROTATION_SPEED, MAX_ROTATION_SPEED). */
  const MIN_ROTATION_SPEED: int := 3
  const MAX_ROTATION_SPEED: int := 8
  /** How far beyond the left or right edge a meteor may drift before it respawns. */
  const SIDE_MARGIN: int := 20

  const HIT_SCORE: int := 10
  const HIT_DAMAGE: int := 20

  /** A rectangle's centre coordinate along one axis (pygame's `centerx`, `centery`):
      its start plus half its extent, rounded down. */
  function CenterOf(start: int, extent: nat): int {
    start + extent / 2
  }

  /** The start a rectangle gets when its centre is assigned (pygame's `centerx = c`). */
  function StartForCenter(center: int, extent: nat): (start: int)
    ensures CenterOf(start, extent) == center
  {
    center - extent / 2
  }
}
