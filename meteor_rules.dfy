/** The rules of `Meteor`: a random start above the window, constant-velocity
    motion, a time-gated rotation about its centre, and a respawn (not a
    removal) once it has left the window. */
module MeteorRules {
  import opened Settings
  import opened Randomness

  /** Width and height of a rectangle. */
  datatype Size = Size(width: nat, height: nat)

  /** A meteor image is non-empty and narrower than the window, which is what
      the respawn's `randrange(0, WIDTH - width)` needs. */
  predicate Fits(s: Size) {
    0 < s.width < WIDTH && 0 < s.height
  }

  /** `pygame.transform.rotate(original_image, degree)` is known here only by
      the size of the image it returns, as a function of the original image's
      side and the degree; for each of the game's three images that size fits. */
  ghost predicate RotationFits(rotate: (nat, int) -> Size) {
    forall side: nat, degree: int :: side in METEOR_SIZES ==> Fits(rotate(side, degree))
  }

  /** A meteor: the side of its original square image, its rectangle (left,
      top, width, height), its velocity, its rotation and the time it last turned. */
  datatype MeteorState = MeteorState(
    image: nat,
    x: int, y: int, width: nat, height: nat,
    speedX: int, speedY: int,
    rotationDegree: int, rotationSpeed: int, lastRotation: int)

  /** The random draws one `Meteor()` or `spawn_new_meteor` call consumes. */
  datatype Draws = Draws(image: int, x: int, y: int, speedY: int, speedX: int, rotationSpeed: int)

  /** What every meteor satisfies at all times. */
  predicate Valid(m: MeteorState) {
    Fits(Size(m.width, m.height))
    && m.image in METEOR_SIZES
    && 0 <= m.rotationDegree < FULL_TURN
    && MIN_SPEED_Y <= m.speedY < MAX_SPEED_Y
    && MIN_SPEED_X <= m.speedX < MAX_SPEED_X
    && MIN_ROTATION_SPEED <= m.rotationSpeed < MAX_ROTATION_SPEED
  }

  /** Where new and respawned meteors start: fully inside the window
      horizontally, 100 to 150 pixels above it. */
  predicate InSpawnArea(m: MeteorState) {
    0 <= m.x < WIDTH - m.width && SPAWN_TOP <= m.y < SPAWN_BOTTOM
  }

  /** `Meteor()`: one of the three images, unrotated, at a random spawn
      position with a random velocity and rotation speed. */
  function New(now: int, d: Draws): (m: MeteorState)
    ensures Valid(m) && InSpawnArea(m)
    ensures m.width == m.image && m.height == m.image
    ensures MIN_SPEED_Y <= m.speedY < MAX_SPEED_Y
    ensures m.rotationDegree == 0 && m.lastRotation == now
  {
    var side := Choice(METEOR_SIZES, d.image);
    MeteorState(
      side,
      RandRange(0, WIDTH - side, d.x), RandRange(SPAWN_TOP, SPAWN_BOTTOM, d.y), side, side,
      RandRange(MIN_SPEED_X, MAX_SPEED_X, d.speedX), RandRange(MIN_SPEED_Y, MAX_SPEED_Y, d.speedY),
      0, RandRange(MIN_ROTATION_SPEED, MAX_ROTATION_SPEED, d.rotationSpeed), now)
  }

  /** Every position, velocity, rotation speed and image of the ranges is
      possible for a new meteor. */
  lemma NewReaches(now: int, i: nat, x: int, y: int, speedX: int, speedY: int, rotationSpeed: int)
    requires i < |METEOR_SIZES|
    requires 0 <= x < WIDTH - METEOR_SIZES[i] && SPAWN_TOP <= y < SPAWN_BOTTOM
    requires MIN_SPEED_X <= speedX < MAX_SPEED_X && MIN_SPEED_Y <= speedY < MAX_SPEED_Y
    requires MIN_ROTATION_SPEED <= rotationSpeed < MAX_ROTATION_SPEED
    ensures exists d :: New(now, d) == MeteorState(METEOR_SIZES[i], x, y, METEOR_SIZES[i], METEOR_SIZES[i],
                                                   speedX, speedY, 0, rotationSpeed, now)
  {
    var d := Draws(i, x, y, speedY, speedX, rotationSpeed);
    assert Choice(METEOR_SIZES, i) == METEOR_SIZES[i];
    assert New(now, d) == MeteorState(METEOR_SIZES[i], x, y, METEOR_SIZES[i], METEOR_SIZES[i],
                                      speedX, speedY, 0, rotationSpeed, now);
  }

  /** `spawn_new_meteor`: a new position and velocity and a new rotation
      speed; the image, its rotation and the rotation clock are kept. */
  function Respawn(m: MeteorState, d: Draws): (r: MeteorState)
    requires m.width < WIDTH
    ensures InSpawnArea(r)
    ensures MIN_SPEED_Y <= r.speedY < RESPAWN_MAX_SPEED_Y
    ensures MIN_SPEED_X <= r.speedX < MAX_SPEED_X
    ensures MIN_ROTATION_SPEED <= r.rotationSpeed < MAX_ROTATION_SPEED
    ensures r.(x := m.x, y := m.y, speedX := m.speedX, speedY := m.speedY, rotationSpeed := m.rotationSpeed) == m
    ensures Valid(m) ==> Valid(r)
  {
    m.(x := RandRange(0, WIDTH - m.width, d.x),
       y := RandRange(SPAWN_TOP, SPAWN_BOTTOM, d.y),
       speedY := RandRange(MIN_SPEED_Y, RESPAWN_MAX_SPEED_Y, d.speedY),
       speedX := RandRange(MIN_SPEED_X, MAX_SPEED_X, d.speedX),
       rotationSpeed := RandRange(MIN_ROTATION_SPEED, MAX_ROTATION_SPEED, d.rotationSpeed))
  }

  /** The move of `Meteor.update`: one step of its velocity. */
  function Moved(m: MeteorState): MeteorState {
    m.(x := m.x + m.speedX, y := m.y + m.speedY)
  }

  /** The time gate of `rotate`: strictly more than 25 ms since the last turn. */
  predicate CanRotate(m: MeteorState, now: int) {
    now - m.lastRotation > ROTATION_INTERVAL
  }

  /** `rotate`: when the gate is open, record the time, turn by the rotation
      speed modulo a full turn, take the rotated image's size and keep the centre. */
  function Rotate(m: MeteorState, now: int, rotate: (nat, int) -> Size): (r: MeteorState)
    ensures !CanRotate(m, now) ==> r == m
    ensures CanRotate(m, now) ==>
              r.lastRotation == now
              && r.rotationDegree == (m.rotationDegree + m.rotationSpeed) % FULL_TURN
              && Size(r.width, r.height) == rotate(m.image, r.rotationDegree)
    ensures 0 <= m.rotationDegree < FULL_TURN ==> 0 <= r.rotationDegree < FULL_TURN
    ensures CanRotate(m, now) ==> 0 <= r.rotationDegree < FULL_TURN
    ensures CenterOf(r.x, r.width) == CenterOf(m.x, m.width)
    ensures CenterOf(r.y, r.height) == CenterOf(m.y, m.height)
    ensures r.image == m.image && r.speedX == m.speedX && r.speedY == m.speedY
            && r.rotationSpeed == m.rotationSpeed
    ensures Valid(m) && RotationFits(rotate) ==> Valid(r)
  {
    if CanRotate(m, now) then
      var degree := (m.rotationDegree + m.rotationSpeed) % FULL_TURN;
      var size := rotate(m.image, degree);
      m.(lastRotation := now, rotationDegree := degree,
         x := StartForCenter(CenterOf(m.x, m.width), size.width),
         y := StartForCenter(CenterOf(m.y, m.height), size.height),
         width := size.width, height := size.height)
    else
      m
  }

  /** The test of `Meteor.update`: below the window, or more than 20 pixels
      beyond its left or right edge. */
  predicate OffScreen(m: MeteorState) {
    m.y > HEIGHT || m.x > WIDTH + SIDE_MARGIN || m.x + m.width < -SIDE_MARGIN
  }

  /** `Meteor.update`: move, rotate, and respawn if it has left the window.
      The meteor is never removed, and never ends a frame off screen. */
  function Update(m: MeteorState, now: int, rotate: (nat, int) -> Size, d: Draws): (r: MeteorState)
    requires Valid(m) && RotationFits(rotate)
    ensures Valid(r) && !OffScreen(r)
    ensures var s := Rotate(Moved(m), now, rotate);
            (!OffScreen(s) ==> r == s)
            && (OffScreen(s) ==> InSpawnArea(r) && r.speedY < RESPAWN_MAX_SPEED_Y
                                 && r.(x := s.x, y := s.y, speedX := s.speedX, speedY := s.speedY,
                                       rotationSpeed := s.rotationSpeed) == s)
  {
    var s := Rotate(Moved(m), now, rotate);
    if OffScreen(s) then Respawn(s, d) else s
  }

  /** Number of times the rotation gate opens over a run of frame times,
      starting from a last turn at `last`. */
  function Turns(last: int, times: seq<int>): nat
    decreases |times|
  {
    if times == [] then 0
    else if times[0] - last > ROTATION_INTERVAL then 1 + Turns(times[0], times[1..])
    else Turns(last, times[1..])
  }

  /** `rotate` called once per frame time. */
  function Spin(m: MeteorState, times: seq<int>, rotate: (nat, int) -> Size): MeteorState
    decreases |times|
  {
    if times == [] then m else Spin(Rotate(m, times[0], rotate), times[1..], rotate)
  }

  /** After any run of `rotate` calls the meteor has turned by its rotation speed once
      per open gate, modulo a full turn. */
  lemma {:induction false} SpinClosedForm(m: MeteorState, times: seq<int>, rotate: (nat, int) -> Size)
    requires 0 <= m.rotationDegree < FULL_TURN
    ensures Spin(m, times, rotate).rotationDegree
            == (m.rotationDegree + Turns(m.lastRotation, times) * m.rotationSpeed) % FULL_TURN
    ensures Spin(m, times, rotate).rotationSpeed == m.rotationSpeed
    decreases |times|
  {
    if times != [] {
      var m1 := Rotate(m, times[0], rotate);
      SpinClosedForm(m1, times[1..], rotate);
      if CanRotate(m, times[0]) {
        TurnOnce(m.rotationDegree, m.rotationSpeed, Turns(times[0], times[1..]));
      }
    }
  }

  /** One more turn before `t` others: reducing modulo a full turn after the
      first one changes nothing. */
  lemma TurnOnce(d: int, s: int, t: nat)
    ensures ((d + s) % FULL_TURN + t * s) % FULL_TURN == (d + (1 + t) * s) % FULL_TURN
  {
    ModAddLeft(d + s, t * s);
    assert (1 + t) * s == s + t * s;
  }

  /** However often `rotate` turns it, the meteor keeps its centre. */
  lemma {:induction false} SpinKeepsCentre(m: MeteorState, times: seq<int>, rotate: (nat, int) -> Size)
    ensures CenterOf(Spin(m, times, rotate).x, Spin(m, times, rotate).width) == CenterOf(m.x, m.width)
    ensures CenterOf(Spin(m, times, rotate).y, Spin(m, times, rotate).height) == CenterOf(m.y, m.height)
    decreases |times|
  {
    if times != [] {
      SpinKeepsCentre(Rotate(m, times[0], rotate), times[1..], rotate);
    }
  }

  /** `Meteor.update` called once per frame time; a respawn in the frame with
      k frames still to run, this one included, uses the draws `d(k)`. */
  function Fly(m: MeteorState, times: seq<int>, rotate: (nat, int) -> Size, d: nat -> Draws): (r: MeteorState)
    requires Valid(m) && RotationFits(rotate)
    ensures Valid(r)
    decreases |times|
  {
    if times == [] then m else Fly(Update(m, times[0], rotate, d(|times|)), times[1..], rotate, d)
  }

  /** No frame of the run takes the meteor off screen, so none respawns it. */
  predicate StaysOnScreen(m: MeteorState, times: seq<int>, rotate: (nat, int) -> Size, d: nat -> Draws)
    requires Valid(m) && RotationFits(rotate)
    decreases |times|
  {
    times == []
    || (!OffScreen(Rotate(Moved(m), times[0], rotate))
        && StaysOnScreen(Update(m, times[0], rotate, d(|times|)), times[1..], rotate, d))
  }

  /** Over a run of frames with no respawn the meteor keeps its velocity and
      rotation speed, and its centre drifts by its velocity once per frame. */
  lemma {:induction false} FlyDrift(m: MeteorState, times: seq<int>, rotate: (nat, int) -> Size, d: nat -> Draws)
    requires Valid(m) && RotationFits(rotate) && StaysOnScreen(m, times, rotate, d)
    ensures var r := Fly(m, times, rotate, d);
            r.speedX == m.speedX && r.speedY == m.speedY && r.rotationSpeed == m.rotationSpeed
            && CenterOf(r.x, r.width) == CenterOf(m.x, m.width) + |times| * m.speedX
            && CenterOf(r.y, r.height) == CenterOf(m.y, m.height) + |times| * m.speedY
    decreases |times|
  {
    if times != [] {
      var m1 := Update(m, times[0], rotate, d(|times|));
      OnScreenStep(m, times[0], rotate, d(|times|));
      FlyDrift(m1, times[1..], rotate, d);
      Steps(|times| - 1, m.speedX);
      Steps(|times| - 1, m.speedY);
    }
  }

  /** One frame with no respawn: the velocity and rotation speed are kept,
      the centre moves by the velocity, and the gate decides the turn. */
  lemma OnScreenStep(m: MeteorState, t: int, rotate: (nat, int) -> Size, d: Draws)
    requires Valid(m) && RotationFits(rotate) && !OffScreen(Rotate(Moved(m), t, rotate))
    ensures var m1 := Update(m, t, rotate, d);
            m1.speedX == m.speedX && m1.speedY == m.speedY && m1.rotationSpeed == m.rotationSpeed
            && CenterOf(m1.x, m1.width) == CenterOf(m.x, m.width) + m.speedX
            && CenterOf(m1.y, m1.height) == CenterOf(m.y, m.height) + m.speedY
            && (CanRotate(m, t) ==> m1.lastRotation == t
                                    && m1.rotationDegree == (m.rotationDegree + m.rotationSpeed) % FULL_TURN)
            && (!CanRotate(m, t) ==> m1.lastRotation == m.lastRotation && m1.rotationDegree == m.rotationDegree)
  {
    assert Update(m, t, rotate, d) == Rotate(Moved(m), t, rotate);
  }

  lemma Steps(k: nat, v: int)
    ensures (k + 1) * v == k * v + v
  {
  }

  /** The turning of a meteor does not depend on where it is: over a run of
      frames with no respawn it turns as `rotate` alone would turn a meteor
      with the same degree, rotation speed and rotation clock. */
  lemma {:induction false} FlyTurnsAsSpin(m: MeteorState, m': MeteorState, times: seq<int>,
                                          rotate: (nat, int) -> Size, d: nat -> Draws)
    requires Valid(m) && RotationFits(rotate) && StaysOnScreen(m, times, rotate, d)
    requires m'.rotationDegree == m.rotationDegree && m'.rotationSpeed == m.rotationSpeed
             && m'.lastRotation == m.lastRotation
    ensures Fly(m, times, rotate, d).rotationDegree == Spin(m', times, rotate).rotationDegree
    decreases |times|
  {
    if times != [] {
      OnScreenStep(m, times[0], rotate, d(|times|));
      FlyTurnsAsSpin(Update(m, times[0], rotate, d(|times|)), Rotate(m', times[0], rotate), times[1..], rotate, d);
    }
  }

  /** Over a run of frames with no respawn the meteor has turned by its
      rotation speed once per open gate, modulo a full turn. */
  lemma FlySpin(m: MeteorState, times: seq<int>, rotate: (nat, int) -> Size, d: nat -> Draws)
    requires Valid(m) && RotationFits(rotate) && StaysOnScreen(m, times, rotate, d)
    ensures Fly(m, times, rotate, d).rotationDegree
            == (m.rotationDegree + Turns(m.lastRotation, times) * m.rotationSpeed) % FULL_TURN
  {
    FlyTurnsAsSpin(m, m, times, rotate, d);
    SpinClosedForm(m, times, rotate);
  }

  lemma ModAddLeft(a: int, b: int)
    ensures (a % FULL_TURN + b) % FULL_TURN == (a + b) % FULL_TURN
  {
    var q := a / FULL_TURN;
    assert a == q * FULL_TURN + a % FULL_TURN;
  }
}
