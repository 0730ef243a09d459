/**
 * The avatar: a vertical offset that moves at a fixed speed, up while a jump
 * is in progress and down otherwise, and the time since the last jump.
 */
module Birds {
  import opened Prelude

  /** Vertical speed in units per millisecond, upward or downward. */
  const BirdSpeed: real := 0.5
  /** How long a jump lifts the bird, in milliseconds. */
  const JumpDuration: real := 123.0
  /** The key code that triggers a jump. */
  const JumpKey: string := "Space"

  /**
   * Milliseconds since the last jump. `Never` stands for the +infinity the
   * timer holds before the first jump; adding a finite delta keeps it there.
   */
  datatype JumpTimer = Never | Since(elapsed: real)

  /** The bird's whole state: its top offset and its jump timer. */
  datatype BirdState = BirdState(top: real, timeSinceLastJump: JumpTimer)

  /** The strict jump-window test: +infinity and exactly 123 are both outside. */
  predicate InJump(t: JumpTimer)
  {
    t.Since? && t.elapsed < JumpDuration
  }

  /** `timeSinceLastJump += delta`, where +infinity absorbs the delta. */
  function Tick(t: JumpTimer, delta: real): (t': JumpTimer)
    ensures t'.Never? <==> t.Never?
    ensures t.Since? ==> t'.elapsed - t.elapsed == delta
  {
    match t
    case Never => Never
    case Since(e) => Since(e + delta)
  }

  /** One frame of the bird: move by half a unit per millisecond, then advance the timer. */
  function Step(s: BirdState, delta: real): (s': BirdState)
    ensures s'.top - s.top == BirdSpeed * delta || s.top - s'.top == BirdSpeed * delta
    ensures delta > 0.0 ==> (s'.top < s.top <==> InJump(s.timeSinceLastJump))
    ensures delta > 0.0 ==> (s'.top > s.top <==> !InJump(s.timeSinceLastJump))
    ensures s'.timeSinceLastJump == Tick(s.timeSinceLastJump, delta)
  {
    var top' := if InJump(s.timeSinceLastJump) then s.top - BirdSpeed * delta else s.top + BirdSpeed * delta;
    BirdState(top', Tick(s.timeSinceLastJump, delta))
  }

  /** A key press: only the jump key restarts the timer, and nothing moves. */
  function Jumped(s: BirdState, code: string): (s': BirdState)
    ensures s'.top == s.top
    ensures code == JumpKey ==> InJump(s'.timeSinceLastJump) && s'.timeSinceLastJump.elapsed == 0.0
    ensures code != JumpKey ==> s' == s
  {
    if code == JumpKey then s.(timeSinceLastJump := Since(0.0)) else s
  }

  /** The state after one `Step` per delta, in order. */
  function Flight(s: BirdState, deltas: seq<real>): BirdState
    decreases |deltas|
  {
    if deltas == [] then s else Flight(Step(s, deltas[0]), deltas[1..])
  }

  /** Before any jump the timer is +infinity, so every frame moves the bird down. */
  lemma {:induction false} FallsUntilFirstJump(top: real, deltas: seq<real>)
    ensures Flight(BirdState(top, Never), deltas) == BirdState(top + BirdSpeed * Sum(deltas), Never)
    decreases |deltas|
  {
    if deltas != [] {
      FallsUntilFirstJump(top + BirdSpeed * deltas[0], deltas[1..]);
    }
  }

  /**
   * While the timer is inside the jump window at every frame, the bird rises
   * by exactly half the elapsed time, and the timer counts that time.
   */
  lemma {:induction false} RisesThroughJumpWindow(top: real, e: real, deltas: seq<real>)
    requires forall k :: 0 <= k < |deltas| ==> e + Sum(deltas[..k]) < JumpDuration
    ensures Flight(BirdState(top, Since(e)), deltas) == BirdState(top - BirdSpeed * Sum(deltas), Since(e + Sum(deltas)))
    decreases |deltas|
  {
    if deltas != [] {
      assert e + Sum(deltas[..0]) < JumpDuration;
      var rest := deltas[1..];
      forall k | 0 <= k < |rest|
        ensures (e + deltas[0]) + Sum(rest[..k]) < JumpDuration
      {
        assert deltas[..k + 1][1..] == rest[..k];
        assert e + Sum(deltas[..k + 1]) < JumpDuration;
      }
      RisesThroughJumpWindow(top - BirdSpeed * deltas[0], e + deltas[0], rest);
    }
  }

  /** A jump followed by frames that stay inside the window lifts the bird by half their total. */
  lemma JumpThenRise(s: BirdState, deltas: seq<real>)
    requires forall k :: 0 <= k < |deltas| ==> Sum(deltas[..k]) < JumpDuration
    ensures Flight(Jumped(s, JumpKey), deltas).top == s.top - BirdSpeed * Sum(deltas)
  {
    RisesThroughJumpWindow(s.top, 0.0, deltas);
  }

  /** The bird as the module holds it: its stored top offset and the module's jump timer. */
  class Bird {
    var top: real
    var timeSinceLastJump: JumpTimer

    function State(): BirdState
      reads this
    {
      BirdState(top, timeSinceLastJump)
    }

    /** Module load: the timer starts at +infinity; the stylesheet's initial top is not modelled. */
    constructor ()
      ensures timeSinceLastJump == Never
    {
      top := 0.0;
      timeSinceLastJump := Never;
    }

    /** Place the bird at the vertical middle of the window; the jump timer is left as it is. */
    method SetupBird(fieldHeight: int)
      modifies this
      ensures top == fieldHeight as real / 2.0
      ensures timeSinceLastJump == old(timeSinceLastJump)
    {
      top := fieldHeight as real / 2.0;
    }

    /** One frame: no clamping, the loop's bounds check detects leaving the field. */
    method UpdateBird(delta: real)
      modifies this
      ensures State() == Step(old(State()), delta)
    {
      if timeSinceLastJump.Since? && timeSinceLastJump.elapsed < JumpDuration {
        top := top - BirdSpeed * delta;
      } else {
        top := top + BirdSpeed * delta;
      }
      timeSinceLastJump := Tick(timeSinceLastJump, delta);
    }

    /** The keydown handler. */
    method HandleJump(code: string)
      modifies this
      ensures State() == Jumped(old(State()), code)
    {
      if code != JumpKey {
        return;
      }
      timeSinceLastJump := Since(0.0);
    }
  }
}
