# Flappy-bird simulation core in Dafny

This project models the per-frame rules of a small browser game. The game has
three parts:

- **The avatar** (`bird.js`, module `Birds`). It has a vertical top offset and
  a jump timer that starts at +infinity. Each frame it moves exactly
  `0.5 * delta`: up while the timer is strictly below 123 ms, down otherwise.
  The timer always advances by `delta`. The `Space` key restarts the timer;
  any other key does nothing. The timer's +infinity is the `Never`
  constructor of `JumpTimer`. The object is the class `Bird`, and its
  methods are proved against the value-level functions `Step` and `Jumped`.
- **The obstacle field** (`pipe.js`, module `Pipes`). It has an ordered
  list of pipe objects, a spawn timer and a passed-pipe counter.
  - `updatePipes` first advances the timer. When the timer strictly exceeds
    600 it pays one interval and appends one new pipe at the right edge of
    the window. The hole top is drawn by `randomNumberBetween`.
  - Next it walks the list as it stood when the walk began. A fully
    off-screen pipe is counted and removes itself, without moving. Every
    other pipe moves left by `delta`.
  - Pipes are a class (`Pipe`) because `remove()` filters the list by
    object identity. The module state is the class `PipeField`.
  - The walk is a loop over a snapshot of the list. The predicate
    `PipeField.Advanced` states what one update does, in terms of the
    left edges at the start of the walk. `Kept` and `OffCount` describe
    which pipes stay and how many leave; lemmas prove order,
    distinctness and bookkeeping about them.
- **The game loop** (`script.js`, module `Game`). It contains the strict
  rectangle-overlap test, the loss test, and the frame-driven start / run /
  stop state machine around `lastTime`.
  - The script's own variables are the `Script` value: the last frame
    time and the host callback it waits for (`Pending`). Each handler
    takes this value and returns the new one.
  - Bird and pipe updates go through the `Bird` and `PipeField`
    objects.

Inputs the code reads from the host are parameters:
- `window.innerHeight` / `innerWidth` are `fieldHeight` / `fieldWidth`.
- The value `Math.random()` returned is `r`, with `0 <= r < 1`.
- The browser's layout of the bird and of a pipe's two segments is
  `birdLayout` and `layout`.

Times and positions are exact `real`s. `Prelude` holds the shared `Option`,
`Rect` and `Sum`.

Three behaviours of the code are easy to miss:
- `setupBird` only re-centres the bird. It does not reset the jump timer,
  which is +infinity only at module load (bird.js:9, bird.js:12-19).
- The hole top lies in `[300, fieldHeight - 100]` only when the field is at
  least 400 high. For a lower window the draw range is reversed, and the
  result lies in `(fieldHeight - 100, 300]` (pipe.js:76-79, pipe.js:123-125).
- "One pipe per interval" holds when every frame delta is at most one
  interval. A longer frame still spawns at most one pipe (pipe.js:31-36).

## Model

| member | source | states |
|---|---|---|
| Birds.Tick | bird.js:30 | +infinity stays +infinity; a finite timer grows by exactly `delta` |
| Birds.Step | bird.js:22-31 | the top moves by exactly `0.5 * delta`, with no clamping; for a positive delta it goes up exactly when the timer is strictly below 123 (so exactly 123 and +infinity go down); the timer advances in both branches |
| Birds.Jumped | bird.js:49-54 | `Space` puts the timer at 0, inside the jump window, and leaves the top alone; any other key code changes nothing |
| Birds.FallsUntilFirstJump | bird.js:22-31 | from the initial +infinity timer, any run of frames only moves the bird down, by half the total elapsed time, and the timer stays +infinity |
| Birds.RisesThroughJumpWindow | bird.js:22-31 | while the timer stays below 123 at every frame, the bird rises by exactly half the elapsed time and the timer counts that time |
| Birds.JumpThenRise | bird.js:53 | a jump followed by frames that stay inside the window lifts the bird by exactly half their total |
| Birds.Bird.constructor | bird.js:9 | the jump timer is +infinity (`Never`) at module load |
| Birds.Bird.SetupBird | bird.js:12-19 | the top is placed at `fieldHeight / 2`; the jump timer is untouched |
| Birds.Bird.UpdateBird | bird.js:22-31 | the new state is `Step` of the old state and `delta` |
| Birds.Bird.HandleJump | bird.js:49-54 | the new state is `Jumped` of the old state and the key code |
| Pipes.RandomNumberBetween | pipe.js:123-125 | for `min <= max` the draw lies in `[min, max]`; for a reversed range it lies in `(max, min]` |
| Pipes.RandomSlices | pipe.js:123-125 | each integer `k` of the range is drawn for exactly the values of `r` in its slice `[(k - min) / w, (k - min + 1) / w)`, where `w = max - min + 1` |
| Pipes.HoleTop | pipe.js:76-79 | for a field at least 400 high, a new hole top lies in `[300, fieldHeight - 100]` |
| Pipes.SpawnCount | pipe.js:31-36 | over k updates at most k pipes are created |
| Pipes.ElapsedTimeAccounted | pipe.js:28-36 | over any run of updates, the final timer plus 600 per spawned pipe equals the start timer plus the elapsed time |
| Pipes.TimerStaysInInterval | pipe.js:28-36 | with frame deltas in `[0, 600]`, a timer in `(0, 600]` stays there |
| Pipes.OnePipePerInterval | pipe.js:21-36 | from setup's 600, or any timer in `(0, 600]`, with deltas of at most one interval, 600 times the number of pipes created is strictly below the start timer plus the elapsed time and at most one interval below it |
| Pipes.Kept | pipe.js:39-47 | the pipes that stay number exactly the visited ones minus those counted as off-screen |
| Pipes.KeptAt | pipe.js:39-47 | an on-screen pipe stays, at its index minus the number of earlier pipes removed |
| Pipes.KeptOnlyOnScreen | pipe.js:41-43 | everything that stays was on-screen when the walk began |
| Pipes.RemovedNeverReappears | pipe.js:41-43 | a pipe removed as off-screen is not in the list afterwards |
| Pipes.SurvivorsKeepOrder | pipe.js:94 | survivors keep their relative order |
| Pipes.KeptDistinct | pipe.js:94 | what stays of a list without repeats has no repeats |
| Pipes.WithoutMembers | pipe.js:94 | the filter keeps exactly the pipes other than the removed one |
| Pipes.DropOnly | pipe.js:92-97 | removing a pipe that occurs once drops that pipe and leaves the rest, in order |
| Pipes.WalkStep | pipe.js:39-47 | one callback of the walk: an off-screen pipe leaves the list and any other pipe stays, so the list is always "kept so far" followed by "not yet visited" |
| Pipes.PipeRects | pipe.js:56-59 | exactly two rectangles per live pipe |
| Pipes.PipeRectsSegments | pipe.js:56-59 | pipe `k`'s upper and lower segments sit at positions `2k` and `2k + 1`, in list order |
| Pipes.Pipe.constructor | pipe.js:83-108 | a new pipe starts at the given left edge, with its hole top fixed |
| Pipes.PipeField.constructor | pipe.js:9-11 | the list is empty at module load |
| Pipes.PipeField.Remove | pipe.js:92-97 | the list becomes the old list without that pipe; no pipe moves |
| Pipes.PipeField.SetupPipes | pipe.js:14-23 | the list is emptied, the timer is set to exactly 600 and the count to 0 |
| Pipes.PipeField.CreatePipe | pipe.js:62-113 | a fresh pipe, at the right edge with the drawn hole top, is appended at the end of the list |
| Pipes.PipeField.VisitPipe | pipe.js:39-47 | an off-screen pipe is counted once, removed and not moved; any other pipe moves left by `delta` |
| Pipes.PipeField.WalkPipes | pipe.js:39-47 | after the `forEach`: the list is the on-screen survivors in order; the count grew by the number removed; removed pipes did not move and the others moved left by `delta` |
| Pipes.PipeField.AdvanceSpawnTimer | pipe.js:27-36 | the timer is advanced by `delta`, less 600 exactly when the sum strictly exceeds 600; on a spawn, one fresh pipe at `fieldWidth` is appended and nothing else changes |
| Pipes.PipeField.UpdatePipes | pipe.js:26-48 | `Advanced`: at most one spawn, appended last; the timer follows `NextTimer`; off-screen pipes leave in order and are counted; every other pipe, including a new one, moves left by `delta`; the list stays without repeats |
| Game.CollisionSymmetric | script.js:55-62 | the overlap test does not depend on argument order |
| Game.TouchingEdgesDoNotCollide | script.js:55-62 | rectangles that only share an edge do not collide |
| Game.CollisionIsSharedPoint | script.js:55-62 | two non-empty rectangles collide exactly when some point lies strictly inside both |
| Game.AnyCollision | script.js:45 | true exactly when some pipe rectangle overlaps the bird |
| Game.CheckLose | script.js:40-52 | lost exactly when the bird's top is < 0 (above the window), its bottom is > `fieldHeight` (below it), or it overlaps some pipe rectangle; with no pipe rectangles only the bounds matter |
| Game.LoseIgnoresPipeOrder | script.js:45 | the verdict depends only on which segments there are, not on their order |
| Game.MoreSegmentsNeverSave | script.js:45-51 | the verdict on a concatenation is the disjunction of the verdicts, so extra segments never turn a loss into survival |
| Game.OffScreenPipeNeverHit | pipe.js:41-46 | for a layout whose segments end at the pipe's right edge, a pipe that is off-screen, but stays listed until the next walk, cannot hit a bird that lies right of the window's left edge |
| Game.HandleStart | script.js:65-76 | only while the start listener is pending: the bird is centred with its timer untouched, the field is reset, `lastTime` is cleared and a frame is requested |
| Game.UpdateLoop | script.js:16-37 | first frame: only the time is recorded, nothing moves. Later frames: the bird takes one `Step` and the field one `Advanced` update, any spawned pipe being a new object, with `delta = time - lastTime`. On a loss the loop stops (no frame, `lastTime` kept); otherwise `lastTime := time` and a frame is requested |
| Game.HandleLose | script.js:79-90 | no further frame is requested, the result display is pending and `lastTime` is kept |
| Game.ShowResult | script.js:81-90 | reports the passed-pipe count and re-arms the one-shot start listener |

## Left out

- DOM element creation, class toggling, the `--pipe-width` / `--hole-height` properties and the title and subtitle text: UI only. The count the subtitle shows is `ShowResult`'s `passed`, which is `getPassedPipesCount`.
- CSS custom-property storage (`--bird-top`, `--pipe-left`, `--hole-top`): modelled as exact field reads and writes. The bird's top before the first `setupBird` comes from the stylesheet, and the constructor puts 0 there.
- The timer and count before the first `setupPipes` are `undefined`. The constructor puts 0 there, and nothing reads them before setup.
- `getBoundingClientRect` geometry: the bird's rectangle is `birdLayout(top)` and a pipe's two segments are `layout(left, holeTop)`, abstract functions the caller supplies.
- Listener registration: the keydown jump listener and its remove-then-add idempotence are not modelled, and `HandleJump` can be called at any time. The one-shot start listener, the animation-frame request and the 100 ms loss timeout are the `Pending` state, so the host's scheduling is not modelled.
- `Math.random`: its value is the parameter `r`.
- JavaScript double rounding: all arithmetic is exact.
- Game.UpdateLoop: the script's module variables are passed in and returned as a `Script` value rather than updated in place. Nothing else holds a reference to them, so no aliasing is lost.
