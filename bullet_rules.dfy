/** The rules of `Bullet`: created centred on a point with its bottom edge on
    it, then moved 10 pixels up per frame and killed once its bottom edge is
    above the top of the window. */
module BulletRules {
  import opened Settings
  import opened Options

  /** A bullet's rectangle, by its left and top edges; its size is fixed. */
  datatype BulletState = BulletState(x: int, y: int)

  function Bottom(b: BulletState): int {
    b.y + BULLET_HEIGHT
  }

  /** `Bullet(x, y)`: centred on x, its bottom edge on y. */
  function BulletAt(centerx: int, bottom: int): (b: BulletState)
    ensures CenterOf(b.x, BULLET_WIDTH) == centerx
    ensures Bottom(b) == bottom
  {
    BulletState(StartForCenter(centerx, BULLET_WIDTH), bottom - BULLET_HEIGHT)
  }

  /** The move made by one `Bullet.update`. */
  function Moved(b: BulletState): BulletState {
    b.(y := b.y + BULLET_SPEED_Y)
  }

  /** A bullet whose bottom edge has passed the top of the window is killed. */
  predicate OffTop(b: BulletState) {
    Bottom(b) < 0
  }

  /** Between the top of the window and the top of the ship, where every
      bullet still in the group is at the end of a frame. */
  predicate InFlight(b: BulletState) {
    0 <= Bottom(b) <= PLAYER_BOTTOM - PLAYER_HEIGHT
  }

  /** The bullet after `frames` calls of `update`, or None once one of them
      killed it. */
  function Flight(b: BulletState, frames: nat): Option<BulletState>
    decreases frames
  {
    if frames == 0 then Some(b)
    else
      match Flight(b, frames - 1)
      case None => None
      case Some(c) => if OffTop(Moved(c)) then None else Some(Moved(c))
  }

  /** After k updates a bullet is still alive exactly when its bottom edge has
      not passed the top, 10 * k pixels higher; it has kept its column. */
  lemma {:induction false} FlightClosedForm(b: BulletState, frames: nat)
    ensures Flight(b, frames).Some? <==> frames == 0 || Bottom(b) - 10 * frames >= 0
    ensures Flight(b, frames).Some? ==>
              Flight(b, frames).value == BulletState(b.x, b.y - 10 * frames)
    decreases frames
  {
    if frames > 0 {
      FlightClosedForm(b, frames - 1);
    }
  }

  /** A bullet on screen survives Bottom / 10 updates and is killed by the next. */
  lemma Lifetime(b: BulletState)
    requires Bottom(b) >= 0
    ensures Flight(b, Bottom(b) / 10).Some?
    ensures Flight(b, Bottom(b) / 10 + 1).None?
  {
    FlightClosedForm(b, Bottom(b) / 10);
    FlightClosedForm(b, Bottom(b) / 10 + 1);
  }
}
