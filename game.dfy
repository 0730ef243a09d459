/**
 * The game loop: the collision and bounds test, the start handler, the
 * per-frame update and the delayed result display after a loss.
 */
module Game {
  import opened Prelude
  import opened Birds
  import opened Pipes

  /** Strict overlap of two rectangles: rectangles that only touch do not collide. */
  predicate IsCollision(a: Rect, b: Rect)
  {
    a.left < b.right && a.top < b.bottom && a.right > b.left && a.bottom > b.top
  }

  /** The point (x, y) lies strictly inside the rectangle. */
  predicate Inside(a: Rect, x: real, y: real)
  {
    a.left < x < a.right && a.top < y < a.bottom
  }

  /** A rectangle with positive width and height. */
  predicate NonEmpty(a: Rect)
  {
    a.left < a.right && a.top < a.bottom
  }

  function Max(x: real, y: real): real { if x < y then y else x }
  function Min(x: real, y: real): real { if x < y then x else y }

  /** The test does not depend on which rectangle is the bird. */
  lemma CollisionSymmetric(a: Rect, b: Rect)
    ensures IsCollision(a, b) <==> IsCollision(b, a)
  {
  }

  /** Rectangles that share only an edge do not collide. */
  lemma TouchingEdgesDoNotCollide(a: Rect, b: Rect)
    requires a.right == b.left || a.left == b.right || a.bottom == b.top || a.top == b.bottom
    ensures !IsCollision(a, b)
  {
  }

  /** Two non-empty rectangles collide exactly when some point lies strictly inside both. */
  lemma CollisionIsSharedPoint(a: Rect, b: Rect)
    requires NonEmpty(a) && NonEmpty(b)
    ensures IsCollision(a, b) <==> exists x, y :: Inside(a, x, y) && Inside(b, x, y)
  {
    if IsCollision(a, b) {
      var x := (Max(a.left, b.left) + Min(a.right, b.right)) / 2.0;
      var y := (Max(a.top, b.top) + Min(a.bottom, b.bottom)) / 2.0;
      assert Inside(a, x, y) && Inside(b, x, y);
    }
  }

  /** `rects.some(rect => isCollision(bird, rect))`. */
  function AnyCollision(bird: Rect, rects: seq<Rect>): (hit: bool)
    ensures hit <==> exists k :: 0 <= k < |rects| && IsCollision(bird, rects[k])
  {
    if rects == [] then false
    else IsCollision(bird, rects[0]) || AnyCollision(bird, rects[1..])
  }

  /**
   * The loss test: the bird's rectangle is above the top of the window,
   * below its height, or overlaps a pipe segment.
   */
  function CheckLose(bird: Rect, pipeRects: seq<Rect>, fieldHeight: int): (lost: bool)
    ensures lost <==> bird.top < 0.0 || bird.bottom > fieldHeight as real
                      || exists k :: 0 <= k < |pipeRects| && IsCollision(bird, pipeRects[k])
  {
    var insidePipe := AnyCollision(bird, pipeRects);
    var outsideWorld := bird.top < 0.0 || bird.bottom > fieldHeight as real;
    outsideWorld || insidePipe
  }

  /** The verdict depends only on which segments there are, not on their order. */
  lemma LoseIgnoresPipeOrder(bird: Rect, rs: seq<Rect>, ts: seq<Rect>, fieldHeight: int)
    requires multiset(rs) == multiset(ts)
    ensures CheckLose(bird, rs, fieldHeight) == CheckLose(bird, ts, fieldHeight)
  {
    forall k | 0 <= k < |rs| && IsCollision(bird, rs[k])
      ensures exists j :: 0 <= j < |ts| && IsCollision(bird, ts[j])
    {
      assert rs[k] in multiset(ts);
      var j :| 0 <= j < |ts| && ts[j] == rs[k];
    }
    forall j | 0 <= j < |ts| && IsCollision(bird, ts[j])
      ensures exists k :: 0 <= k < |rs| && IsCollision(bird, rs[k])
    {
      assert ts[j] in multiset(rs);
      var k :| 0 <= k < |rs| && rs[k] == ts[j];
    }
  }

  /** More segments can only turn a survival into a loss, never the reverse. */
  lemma MoreSegmentsNeverSave(bird: Rect, rs: seq<Rect>, more: seq<Rect>, fieldHeight: int)
    ensures CheckLose(bird, rs, fieldHeight) ==> CheckLose(bird, rs + more, fieldHeight)
    ensures CheckLose(bird, rs + more, fieldHeight) <==> CheckLose(bird, rs, fieldHeight) || CheckLose(bird, more, fieldHeight)
  {
    if CheckLose(bird, rs, fieldHeight) && !(bird.top < 0.0 || bird.bottom > fieldHeight as real) {
      var k :| 0 <= k < |rs| && IsCollision(bird, rs[k]);
      assert (rs + more)[k] == rs[k];
    }
    if CheckLose(bird, more, fieldHeight) && !(bird.top < 0.0 || bird.bottom > fieldHeight as real) {
      var k :| 0 <= k < |more| && IsCollision(bird, more[k]);
      assert (rs + more)[|rs| + k] == more[k];
    }
    if CheckLose(bird, rs + more, fieldHeight) && !(bird.top < 0.0 || bird.bottom > fieldHeight as real) {
      var k :| 0 <= k < |rs + more| && IsCollision(bird, (rs + more)[k]);
      if k >= |rs| {
        assert more[k - |rs|] == (rs + more)[k];
      }
    }
  }

  /**
   * A pipe that is off-screen, and whose segments lie left of its right
   * edge, cannot touch a bird that is inside the window horizontally: the
   * pipes the walk keeps for one more frame do not change the verdict.
   */
  lemma OffScreenPipeNeverHit(bird: Rect, left: real, holeTop: int, layout: (real, int) -> (Rect, Rect))
    requires OffScreen(left) && bird.left >= 0.0
    requires layout(left, holeTop).0.right <= left + PipeWidth && layout(left, holeTop).1.right <= left + PipeWidth
    ensures !IsCollision(bird, layout(left, holeTop).0) && !IsCollision(bird, layout(left, holeTop).1)
  {
  }

  /** Which host callback is pending: the one-shot start listener, an animation frame, or the loss timeout. */
  datatype Pending = StartListener | AnimationFrame | LoseTimeout

  /**
   * The script's own variables: the time of the last frame (absent until the
   * first frame after a start) and the host callback it is waiting for.
   */
  datatype Script = Script(lastTime: Option<real>, pending: Pending)

  /** Module load: no frame has run and the start listener is registered. */
  const Loaded: Script := Script(None, StartListener)

  /**
   * The start handler: reset the bird and the pipes, forget the last frame
   * time, ask for a frame. A session begins with it from `Loaded`, and again
   * after each `ShowResult`.
   */
  method HandleStart(bird: Bird, field: PipeField, s: Script, fieldHeight: int) returns (s': Script)
    requires field.Valid() && s.pending == StartListener
    modifies bird, field
    ensures field.Valid() && s' == Script(None, AnimationFrame)
    ensures bird.top == fieldHeight as real / 2.0 && bird.timeSinceLastJump == old(bird.timeSinceLastJump)
    ensures field.pipes == [] && field.timeSinceLastPipe == PipeInterval && field.passedPipeCount == 0
  {
    bird.SetupBird(fieldHeight);
    field.SetupPipes();
    s' := Script(None, AnimationFrame);
  }

  /**
   * The frame callback. The first frame after a start only records its
   * time. Every later frame moves the bird, then the pipes, by the time
   * since the last frame, and then either stops on a loss (the last frame
   * time stays as it was) or records the time and asks for the next frame.
   * `birdLayout` gives the bird's rectangle for a top offset, `layout` a
   * pipe's two segment rectangles.
   */
  method UpdateLoop(bird: Bird, field: PipeField, s: Script, time: real, fieldWidth: int, fieldHeight: int, r: real,
                    birdLayout: real -> Rect, layout: (real, int) -> (Rect, Rect))
    returns (s': Script, ghost visited: seq<Pipe>, ghost before: seq<real>)
    requires field.Valid() && s.pending == AnimationFrame && 0.0 <= r < 1.0
    modifies bird, field, field.pipes
    ensures field.Valid()
    ensures s.lastTime.None? ==>
      s' == Script(Some(time), AnimationFrame)
      && bird.State() == old(bird.State()) && unchanged(field) && unchanged(field.pipes)
    ensures s.lastTime.Some? ==>
      var delta := time - s.lastTime.value;
      && bird.State() == Step(old(bird.State()), delta)
      && field.Advanced(old(field.pipes), old(LeftEdges(field.pipes)), old(field.timeSinceLastPipe),
                        old(field.passedPipeCount), delta, fieldWidth, fieldHeight, r, visited, before)
      && (Spawns(old(field.timeSinceLastPipe), delta) ==> fresh(visited[|old(field.pipes)|]))
      && s' == if CheckLose(birdLayout(bird.top), PipeRects(field.pipes, layout), fieldHeight)
               then HandleLose(s)
               else Script(Some(time), AnimationFrame)
  {
    if s.lastTime.None? {
      s' := Script(Some(time), AnimationFrame);
      visited, before := [], [];
      return;
    }
    var delta := time - s.lastTime.value;
    bird.UpdateBird(delta);
    visited, before := field.UpdatePipes(delta, fieldWidth, fieldHeight, r);
    if CheckLose(birdLayout(bird.top), PipeRects(field.pipes, layout), fieldHeight) {
      s' := HandleLose(s);
      return;
    }
    s' := Script(Some(time), AnimationFrame);
  }

  /**
   * The loss handler: no further frame is requested and the result display
   * is scheduled; the last frame time is left as it was.
   */
  function HandleLose(s: Script): (s': Script)
    ensures s'.pending == LoseTimeout && s'.lastTime == s.lastTime
  {
    s.(pending := LoseTimeout)
  }

  /** The loss timeout: report the passed-pipe count and register the one-shot start listener again. */
  method ShowResult(field: PipeField, s: Script) returns (s': Script, passed: nat)
    requires s.pending == LoseTimeout
    ensures s'.pending == StartListener && s'.lastTime == s.lastTime
    ensures passed == field.passedPipeCount
  {
    passed := field.passedPipeCount;
    s' := s.(pending := StartListener);
  }
}
