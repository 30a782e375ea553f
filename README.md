# Space shooter: a verified model of the frame rules

This project models the game rules of `main.py`, a pygame space shooter, in
Dafny. The ship moves along the bottom of an 800 x 800 window and fires
bullets upward. It must shoot down or dodge eight rotating meteors. The
model keeps the program's own form:

- the state the program updates in place lives in classes: `Sprites.Bullet`,
  `Sprites.Player`, `Sprites.Meteor`, and `Game.World` for the module-level
  groups and score;
- every sprite method is proved to change its sprite exactly as a pure rule
  function says (`BulletRules`, `PlayerRules`, `MeteorRules`);
- every `Game.World` method that runs at most one frame states the groups,
  sprite states, score and health it leaves behind. It states them through
  those rule functions, through `Groups.Remove` (pygame's `kill`) and
  through `Game.GroupCollide` and `Game.SpriteCollide` (pygame's collision
  queries). `Game.World.Play`, which runs many frames, states less: how the
  loop ends, and that score and health moved by 10 and 20 per hit and crash
  it reports, without tying those counts to any frame's collisions;
- the properties the game promises are proved about those functions.

A pass of the main loop (`Game.World.Pass`) does four things:

1. it reads the quit event;
2. it updates every sprite;
3. it resolves bullet/meteor hits, then meteor/ship hits, replacing every
   destroyed meteor;
4. it ends the game when the ship's health is 0 or below.

Steps 2 and 3 are `Game.World.Step`. Its ghost outputs name the groups
between the phases, so that its contract pins down the whole new state. It
gives the meteor and bullet states after the update and the groupcollide
result on those states. It gives the meteor group between the two halves of
the collision check and the meteors that hit the updated ship. It gives the
final groups as the survivors plus the new meteors, and the final score and
health. Every number of hits and crashes it returns is the size of the
matching collision result.

`Game.World.Play` is the `while running:` loop over a run of frames.

What pygame, the clock, the keyboard and `random` supply arrives as inputs
to each frame (`Game.FrameInput`):

- `now` is the millisecond clock;
- `quit` and `keys` are the events and the held keys;
- `rotate` is the size of a rotated meteor image;
- `respawn` and `spawn` are the random draws;
- `overlap` and `crash` are the collision tests.

A random value is a function of an arbitrary integer draw
(`Randomness.RandRange`, `Randomness.Choice`). A draw inside the range is
the value drawn; a draw outside it stands for the range's first value. So
every value of the range is reachable and no other.

Two points of the code's behaviour are kept exactly as written:

- **Health is not clamped.** `player.health -= 20` (main.py:167) runs once
  per meteor that hits, with no lower bound. Two hits at 20 health leave -20
  (`PlayerRules.HealthNotClamped`). The game ends when health is 0 or below
  (main.py:208), not only at exactly 0.
- **The fire gate is strict.** A shot is fired only when strictly more than
  200 ms have passed since the last one (main.py:82). A press exactly 200 ms
  after a shot fires nothing.

## Model

| member | source | states |
|---|---|---|
| Settings.StartForCenter | main.py:58 | assigning a rectangle's centre puts its centre, rounded down as pygame does, exactly there |
| Randomness.RandRange | main.py:118-121 | `random.randrange(start, stop)`, here and at main.py:124 and 137-141, yields a value in [start, stop) |
| Randomness.RandRangeReaches | main.py:118-121 | every value of [start, stop) is the outcome of some draw, for each `randrange` call of main.py:118-124 and 137-141 |
| Randomness.Choice | main.py:114 | `random.choice` yields an element of the sequence |
| Randomness.ChoiceReaches | main.py:114 | every element of the sequence is the outcome of some draw |
| Groups.Remove | main.py:66 | `kill` takes exactly the dead sprites out of a group, and the group never grows |
| Groups.SurvivorPositions | main.py:66 | the survivors of a kill keep their relative order: the i-th survivor is the sprite at the i-th of an increasing run of positions of the old group, and that run holds every position whose sprite was not killed |
| Groups.RemoveCount | main.py:66 | killing a set of sprites of a group of distinct sprites leaves exactly that many fewer |
| BulletRules.Moved | main.py:63 | definition the other contracts are written in: one update moves the bullet up 10 pixels in its column |
| BulletRules.OffTop | main.py:65 | definition the other contracts are written in: the bullet is killed when its bottom edge is above the window's top |
| BulletRules.BulletAt | main.py:53-59 | a new bullet is centred on the given x with its bottom edge on the given y |
| BulletRules.FlightClosedForm | main.py:62-66 | after k updates, a bullet is alive exactly when its bottom is still at or below the top after rising 10 * k pixels, and it has moved up exactly 10 * k in the same column |
| BulletRules.Lifetime | main.py:62-66 | a bullet on screen survives bottom / 10 updates and is killed by the next one |
| PlayerRules.Initial | main.py:69-78 | the ship starts centred, bottom edge 10 pixels above the window's, at rest, with 100 health and its last shot dated now |
| PlayerRules.Movement | main.py:96-103 | speed is -8 when LEFT is held (LEFT wins over RIGHT), else +8 when RIGHT is held, else 0; x moves by exactly that speed; nothing else changes |
| PlayerRules.Boundaries | main.py:105-109 | afterwards the ship is inside the window; a ship already inside is unchanged; an edge past the window is put on the window edge; only x changes |
| PlayerRules.BoundariesIdempotent | main.py:105-109 | clamping twice is clamping once |
| PlayerRules.CanShoot | main.py:82 | definition the other contracts are written in: the gate is open when strictly more than 200 ms have passed since the last shot |
| PlayerRules.ShootBullet | main.py:80-86 | a bullet is fired exactly when now - last shot > 200; it is centred on the ship with its bottom on the ship's top, and the last-shot time becomes now; otherwise nothing changes |
| PlayerRules.Update | main.py:88-94 | move, clamp, then fire exactly when SPACE is held and the gate is open; the ship stays in the window, its row and health are kept, and a fired bullet starts at the clamped ship's top centre |
| PlayerRules.Damaged | main.py:166-167 | k meteor hits take exactly 20 * k health and change nothing else; health drops exactly when k > 0 |
| PlayerRules.Defeated | main.py:208 | definition the other contracts are written in: the game ends when health is 0 or below |
| PlayerRules.FiveCrashesEndTheGame | main.py:167 | from 100 health, four hits leave the game running and the fifth leaves exactly 0 health, which ends it |
| PlayerRules.HealthNotClamped | main.py:167 | two hits at 20 health leave -20: health is not clamped at 0 |
| PlayerRules.ShotsSpaced | main.py:80-86 | over any run of frames, consecutive shots are strictly more than 200 ms apart, and the first is more than 200 ms after the previous shot |
| MeteorRules.New | main.py:111-124 | a new meteor has one of the three image sizes, is unrotated, starts in [0, WIDTH - width) x [-150, -100), has speed_y in [2, 8), speed_x in [-3, 3) and rotation speed in [3, 8), and has its last rotation dated now |
| MeteorRules.NewReaches | main.py:111-124 | every combination of image, position and speeds in those ranges is the new meteor of some draws |
| MeteorRules.Respawn | main.py:136-141 | a respawned meteor is back in the spawn area with speed_y in [2, 5), speed_x in [-3, 3) and rotation speed in [3, 8); its image, rotation and rotation clock are kept |
| MeteorRules.Moved | main.py:144-145 | definition the other contracts are written in: the meteor moves by its speed on both axes |
| MeteorRules.CanRotate | main.py:128 | definition the other contracts are written in: the rotation gate is open when strictly more than 25 ms have passed since the last rotation |
| MeteorRules.Rotate | main.py:126-134 | the meteor turns only when more than 25 ms have passed, and then by its rotation speed modulo 360 with its last rotation dated now; the degree stays in [0, 360), the centre is kept, and the size is the rotated image's |
| MeteorRules.OffScreen | main.py:149 | definition the other contracts are written in: the meteor's top is below the window, or its left edge more than 20 pixels past the right edge, or its right edge more than 20 pixels before the left edge |
| MeteorRules.Update | main.py:143-150 | move, rotate, and respawn exactly when the meteor is below the window or more than 20 pixels beside it; a respawn redraws only the position, velocity and rotation speed and keeps every other field, the image included; the meteor stays valid and never ends the frame off screen |
| MeteorRules.SpinClosedForm | main.py:126-134 | over any run of `rotate` calls, the degree is the start degree plus the rotation speed times the number of open gates, modulo 360 |
| MeteorRules.SpinKeepsCentre | main.py:126-134 | over any run of `rotate` calls, the meteor keeps its centre |
| MeteorRules.Fly | main.py:143-150 | a meteor updated once per frame over any run of frames, each frame with its own respawn draws, stays valid |
| MeteorRules.OnScreenStep | main.py:143-150 | in a frame with no respawn, the velocity and rotation speed are kept, the centre moves by the velocity, and the meteor turns and re-dates its rotation exactly when the rotation gate is open |
| MeteorRules.FlyDrift | main.py:143-150 | over any run of frames with no respawn, the velocity and rotation speed are kept and the centre has moved by the velocity times the number of frames |
| MeteorRules.FlyTurnsAsSpin | main.py:143-150 | over any run of frames with no respawn, the meteor turns exactly as `rotate` alone would turn a meteor with the same degree, rotation speed and rotation clock, wherever it is |
| MeteorRules.FlySpin | main.py:143-150 | over any run of frames with no respawn, the degree is the start degree plus the rotation speed times the number of open gates, modulo 360 |
| Sprites.Bullet.constructor | main.py:53-60 | the new bullet is the one `BulletAt` describes |
| Sprites.Bullet.Update | main.py:62-66 | the bullet moves as `Moved` says, and reports itself dead exactly when its bottom edge is above the window |
| Sprites.Player.constructor | main.py:69-78 | the new ship is `PlayerRules.Initial` |
| Sprites.Player.ShootBullet | main.py:80-86 | the ship changes as `PlayerRules.ShootBullet` says, and a fresh bullet is returned exactly when that function fires one, with that bullet's state |
| Sprites.Player.Update | main.py:88-94 | the ship changes as `PlayerRules.Update` says, and returns the bullet it fires, fresh |
| Sprites.Player.Movement | main.py:96-103 | the ship changes as `PlayerRules.Movement` says |
| Sprites.Player.Boundaries | main.py:105-109 | the ship changes as `PlayerRules.Boundaries` says |
| Sprites.Meteor.constructor | main.py:111-124 | the new meteor is `MeteorRules.New` for the clock reading and draws, and is valid |
| Sprites.Meteor.Rotate | main.py:126-134 | the meteor changes as `MeteorRules.Rotate` says |
| Sprites.Meteor.SpawnNewMeteor | main.py:136-141 | the meteor changes as `MeteorRules.Respawn` says |
| Sprites.Meteor.Update | main.py:143-150 | the meteor changes as `MeteorRules.Update` says and stays valid |
| Game.GroupCollide | main.py:155 | groupcollide kills only meteors and bullets of the groups, and each killed meteor once |
| Game.GroupCollideBullets | main.py:155 | a bullet is killed exactly when it overlaps some meteor of the group, so no bullet left in the group overlaps a meteor |
| Game.GroupCollideMeteors | main.py:155 | a meteor is killed exactly when it is the first meteor of the group, in group order, to overlap some bullet; a meteor whose bullets were all taken by earlier meteors survives |
| Game.SpriteCollide | main.py:165 | the meteors that hit the ship are exactly those of the group the crash test picks |
| Game.World.constructor | main.py:174-189 | setup: a fresh ship as `Initial` says, eight distinct fresh meteors made from the first eight draws, no bullets, score 0, and the world invariant |
| Game.World.UpdateBullets | main.py:62-66 | every bullet in the group moves once; exactly the bullets whose move takes them off the top leave the group, and the others keep their order and stay between the window's top and the ship |
| Game.World.UpdateMeteors | main.py:143-150 | every meteor is updated as `MeteorRules.Update` says, with its own draws; none leaves the group and all stay valid |
| Game.World.UpdatePlayer | main.py:88-94 | the ship is updated as `PlayerRules.Update` says; the bullet it fires, if any, joins the end of the bullet group |
| Game.World.UpdateSprites | main.py:202 | `all_sprites.update()`: every meteor is updated as `MeteorRules.Update` says and every old bullet moves once; the ship is updated as `PlayerRules.Update` says and fires the bullet that function gives, which joins the group last; the bullets that leave the top leave the group; the meteor group is unchanged and the world invariant is kept |
| Game.World.AddMeteor | main.py:158-160 | a fresh meteor made from the draws joins the end of the group, which stays distinct and valid |
| Game.World.ReplaceShotDown | main.py:156-162 | for n destroyed meteors, n fresh meteors from the spawn draws join the end of the group, and the score rises by exactly 10 * n |
| Game.World.ReplaceCrashed | main.py:166-171 | for n meteors that hit the ship, n fresh meteors join the end of the group, and health falls by exactly 20 * n |
| Game.World.KillShotDown | main.py:155 | the groupcollide result is returned, its meteors and bullets leave their groups in order, and at most eight meteors are hit |
| Game.World.ShootDownMeteors | main.py:155-162 | bullet/meteor hits: killed meteors and bullets leave, one fresh replacement per killed meteor joins the end, the score rises by 10 per meteor, and eight meteors remain |
| Game.World.MeteorsHitPlayer | main.py:165-171 | meteor/ship hits: the hitting meteors leave, one fresh replacement per hit joins the end, health falls by 20 per hit, and eight meteors remain |
| Game.World.CheckCollisions | main.py:153-171 | the hits are exactly groupcollide's killed meteors on the current states; those meteors and their bullets leave, one new meteor per hit joins the end and the score rises by 10 each; then the meteors that hit the ship are exactly spritecollide's result on that group, they leave, one new meteor each joins the end and health falls by 20 each; no sprite but the ship changes state; eight meteors remain and the world invariant holds |
| Game.World.Step | main.py:201-205 | one frame's update and collision check: the meteor and bullet states after the update are those the rule functions give; hits is the size of groupcollide's result on them and crashes the size of spritecollide's result for the updated ship on the group between the halves; the final groups are the survivors plus the new meteors, the sprites keep the states the collision tests saw, the score rises by 10 per hit and the ship is the updated one minus 20 health per crash |
| Game.World.Pass | main.py:194-210 | one pass of the main loop: the game keeps running exactly when no quit event came and health is above 0 after the frame; the frame is the one `Game.World.Step` states (groups, sprite states, score and health), and `hits` and `crashes` are the sizes of that frame's `groupcollide` and `spritecollide` results |
| Game.World.Play | main.py:193-210 | the loop ends only after a frame with a quit event or no health left, or when the inputs run out; no earlier frame quit; the score has risen by 10 per reported hit and health has fallen by 20 per reported crash; the contract does not tie the reported counts to any frame's collisions (see Left out) |

## Left out

- Rendering, assets and sound are left out, because they are pygame I/O: window setup, image loading and scaling, blitting, the health bar, the score text, `display.flip` (main.py:8-49, 212-227).
- The frame rate is left out: `clock.tick(FPS)` only paces the loop.
- Events other than QUIT are left out: each frame's events are one `quit` flag.
- The clock is one `now` per frame. Every `get_ticks()` call within the frame reads the same value, though the real clock may advance between calls.
- Randomness: `random.randrange` and `random.choice` read an arbitrary integer draw supplied by the caller, not a generator state. A draw outside the range stands for the range's first value, so the model says which values can occur, not how often.
- Collision geometry is abstract: `collide_rect` for bullets and meteors and `collide_circle` for the ship. The meteor's `radius`, an integer computed from the float expression 0.85 × width / 2 (main.py:117), is left out, so the tests are the parameters `overlap` and `crash`. `groupcollide` and `spritecollide` are modelled as pygame evaluates them over the current groups.
- `pygame.transform.rotate` is an abstract function from the original image's side and the degree to the rotated image's size. For each of the three meteor images it is required to be non-empty and narrower than the window (`MeteorRules.RotationFits`), which the respawn's `randrange(0, WIDTH - width)` needs. The image surfaces themselves are left out; a meteor keeps its original image's side.
- The `all_sprites` group is not kept separately; `UpdateSprites` updates its three kinds of sprites in three passes. Updates do not all touch only their own sprite: the ship's update adds a bullet to the groups (main.py:85-86) and a bullet's update removes it from them (main.py:66). The order of the passes still does not change the outcome, because no update reads another sprite's state, a bullet removed by its own update is not updated again in that frame, and the bullet the ship fires is not updated in the frame it is fired (pygame's `update` walks a copy of the group taken before any sprite is updated; the model runs `UpdateBullets` before the ship's update).
- The "Game Over" console message (main.py:209) is I/O.
- Game.World.Play: it does not return the per-frame history, so it states that the frames before the last had no quit event, but not the health after each of them; its contract relates score and health to the `hits` and `crashes` it returns, but does not tie those numbers to any frame's `groupcollide` or `spritecollide` results, and does not promise that a frame was actually played for each frame it counts. Only `Game.World.Pass` ties a frame's counts to its collisions; stating `Play` against a per-frame function of the whole world would need the world as a value, which this model keeps as objects.
