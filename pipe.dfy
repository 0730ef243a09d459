/**
 * The obstacle field: an ordered list of pipes (oldest first), a spawn timer
 * and the count of pipes that have scrolled off the left edge.
 */
module Pipes {
  import opened Prelude

  /** Height of the gap between a pipe's two segments. */
  const HoleHeight: int := 200
  /** Width of a pipe. */
  const PipeWidth: real := 120.0
  /** Milliseconds between two pipe creations. */
  const PipeInterval: real := 600.0
  /** Leftward speed of a pipe in units per millisecond. */
  const PipeSpeed: real := 1.0

  /**
   * `Math.floor(r * (max - min + 1) + min)`, with `r` standing for the value
   * `Math.random()` returned. For `min <= max` the result lies in the
   * inclusive range; for a reversed range it lies in `(max, min]`.
   */
  function RandomNumberBetween(min: int, max: int, r: real): (n: int)
    requires 0.0 <= r < 1.0
    ensures min <= max ==> min <= n <= max
    ensures max < min ==> max < n <= min
  {
    var width := (max - min + 1) as real;
    ScaledBelow(r, width);
    (r * width + min as real).Floor
  }

  /** A value in [0, 1) scales a width into [0, width) or, for a non-positive width, (width, 0]. */
  lemma ScaledBelow(r: real, width: real)
    requires 0.0 <= r < 1.0
    ensures width > 0.0 ==> 0.0 <= r * width < width
    ensures width <= 0.0 ==> width < r * width <= 0.0 || width == 0.0
  {
    if width > 0.0 {
      assert r * width < 1.0 * width;
    } else if width < 0.0 {
      assert r * (-width) < 1.0 * (-width);
    }
  }

  /** Each integer of the range is drawn for exactly the values of `r` in one slice of width 1/(max - min + 1). */
  lemma RandomSlices(min: int, max: int, r: real, k: int)
    requires 0.0 <= r < 1.0 && min <= k <= max
    ensures RandomNumberBetween(min, max, r) == k
        <==> (k - min) as real <= r * (max - min + 1) as real < (k - min + 1) as real
  {
  }

  /** The hole top of a new pipe, drawn between 1.5 and field height minus 0.5 hole heights. */
  function HoleTop(fieldHeight: int, r: real): (h: int)
    requires 0.0 <= r < 1.0
    ensures 2 * HoleHeight <= fieldHeight ==> HoleHeight * 3 / 2 <= h <= fieldHeight - HoleHeight / 2
  {
    RandomNumberBetween(HoleHeight * 3 / 2, fieldHeight - HoleHeight / 2, r)
  }

  /** The strict spawn test: a timer that reaches exactly 600 does not spawn. */
  predicate Spawns(timer: real, delta: real)
  {
    timer + delta > PipeInterval
  }

  /** The spawn timer after one update: advanced by delta, less one interval on a spawn. */
  function NextTimer(timer: real, delta: real): real
  {
    if Spawns(timer, delta) then timer + delta - PipeInterval else timer + delta
  }

  /** The spawn timer after one update per delta. */
  function TimerAfter(timer: real, deltas: seq<real>): real
    decreases |deltas|
  {
    if deltas == [] then timer else TimerAfter(NextTimer(timer, deltas[0]), deltas[1..])
  }

  /** How many of those updates create a pipe (at most one each). */
  function SpawnCount(timer: real, deltas: seq<real>): (n: nat)
    ensures n <= |deltas|
    decreases |deltas|
  {
    if deltas == [] then 0
    else (if Spawns(timer, deltas[0]) then 1 else 0) + SpawnCount(NextTimer(timer, deltas[0]), deltas[1..])
  }

  /** Every millisecond of elapsed time is either still on the timer or paid for by a spawned pipe. */
  lemma {:induction false} ElapsedTimeAccounted(timer: real, deltas: seq<real>)
    ensures TimerAfter(timer, deltas) + PipeInterval * SpawnCount(timer, deltas) as real == timer + Sum(deltas)
    decreases |deltas|
  {
    if deltas != [] {
      ElapsedTimeAccounted(NextTimer(timer, deltas[0]), deltas[1..]);
    }
  }

  /** With frame deltas of at most one interval, the timer stays in (0, 600]. */
  lemma {:induction false} TimerStaysInInterval(timer: real, deltas: seq<real>)
    requires 0.0 < timer <= PipeInterval
    requires forall k :: 0 <= k < |deltas| ==> 0.0 <= deltas[k] <= PipeInterval
    ensures 0.0 < TimerAfter(timer, deltas) <= PipeInterval
    decreases |deltas|
  {
    if deltas != [] {
      TimerStaysInInterval(NextTimer(timer, deltas[0]), deltas[1..]);
    }
  }

  /**
   * Spawning is periodic: starting from a timer in (0, 600] (600 right after
   * setup) and with frame deltas of at most one interval, the number of pipes
   * created is the number of whole intervals the elapsed time completes.
   */
  lemma OnePipePerInterval(timer: real, deltas: seq<real>)
    requires 0.0 < timer <= PipeInterval
    requires forall k :: 0 <= k < |deltas| ==> 0.0 <= deltas[k] <= PipeInterval
    ensures PipeInterval * SpawnCount(timer, deltas) as real < timer + Sum(deltas)
    ensures timer + Sum(deltas) <= PipeInterval * (SpawnCount(timer, deltas) + 1) as real
  {
    ElapsedTimeAccounted(timer, deltas);
    TimerStaysInInterval(timer, deltas);
  }

  /** A pipe is fully off-screen once its right edge is left of 0. */
  predicate OffScreen(left: real)
  {
    left + PipeWidth < 0.0
  }

  /** A pipe's left edge after one walk: unchanged if it was off-screen, else moved left by delta. */
  function Moved(left: real, delta: real): real
  {
    if OffScreen(left) then left else left - delta * PipeSpeed
  }

  /** How many of the first `n` positions are off-screen. */
  function OffCount(lefts: seq<real>, n: nat): (c: nat)
    requires n <= |lefts|
    ensures c <= n
  {
    if n == 0 then 0 else OffCount(lefts, n - 1) + (if OffScreen(lefts[n - 1]) then 1 else 0)
  }

  /** The entries among the first `n` of `xs` whose position in `lefts` is on-screen, in their original order. */
  function Kept<T>(xs: seq<T>, lefts: seq<real>, n: nat): (ys: seq<T>)
    requires |xs| == |lefts| && n <= |xs|
    ensures |ys| == n - OffCount(lefts, n)
  {
    if n == 0 then []
    else Kept(xs, lefts, n - 1) + (if OffScreen(lefts[n - 1]) then [] else [xs[n - 1]])
  }

  /**
   * The entry at position `i`. Distinctness is stated over this named access
   * so that it is applied to a pair of positions only where a proof asks for
   * that pair (through `DistinctAt`), not to every pair of indexed entries.
   */
  function At<T>(xs: seq<T>, i: nat): T
    requires i < |xs|
  {
    xs[i]
  }

  /** No entry occurs twice. */
  predicate Distinct<T(==)>(xs: seq<T>)
  {
    forall i, j {:trigger At(xs, i), At(xs, j)} :: 0 <= i < j < |xs| ==> At(xs, i) != At(xs, j)
  }

  /** In a distinct sequence, entries at different positions differ. */
  lemma DistinctAt<T>(xs: seq<T>, i: nat, j: nat)
    requires Distinct(xs) && i < |xs| && j < |xs| && i != j
    ensures xs[i] != xs[j]
  {
    if i < j {
      assert At(xs, i) != At(xs, j);
    } else {
      assert At(xs, j) != At(xs, i);
    }
  }

  /** Appending an entry that is not yet present keeps a sequence distinct. */
  lemma DistinctSnoc<T>(xs: seq<T>, x: T)
    requires Distinct(xs) && x !in xs
    ensures Distinct(xs + [x])
  {
    var ys := xs + [x];
    forall i, j | 0 <= i < j < |ys|
      ensures At(ys, i) != At(ys, j)
    {
      if j < |xs| {
        DistinctAt(xs, i, j);
      } else {
        assert ys[i] == xs[i] && ys[j] == x;
      }
    }
  }

  /** In a distinct sequence, an entry does not occur after its own position. */
  lemma NotLater<T>(xs: seq<T>, i: nat)
    requires Distinct(xs) && i < |xs|
    ensures xs[i] !in xs[i + 1..]
  {
    var later := xs[i + 1..];
    forall j | 0 <= j < |later|
      ensures later[j] != xs[i]
    {
      DistinctAt(xs, i, i + 1 + j);
    }
  }

  /** In a distinct sequence, no other position holds the entry at `i`. */
  lemma DistinctOthers<T>(xs: seq<T>, i: nat)
    requires Distinct(xs) && i < |xs|
    ensures forall k :: 0 <= k < |xs| && k != i ==> xs[k] != xs[i]
  {
    forall k | 0 <= k < |xs| && k != i
      ensures xs[k] != xs[i]
    {
      DistinctAt(xs, k, i);
    }
  }

  /** `xs.filter(q => q !== p)`. */
  function Without<T(==)>(xs: seq<T>, p: T): seq<T>
  {
    if xs == [] then []
    else (if xs[0] == p then [] else [xs[0]]) + Without(xs[1..], p)
  }

  /** The filter keeps exactly the entries other than `p`. */
  lemma {:induction false} WithoutMembers<T>(xs: seq<T>, p: T, q: T)
    ensures q in Without(xs, p) <==> q in xs && q != p
  {
    if xs != [] {
      WithoutMembers(xs[1..], p, q);
      assert xs == [xs[0]] + xs[1..];
    }
  }

  /** An on-screen entry stays, at the index given by how many before it were dropped. */
  lemma {:induction false} KeptAt<T>(xs: seq<T>, lefts: seq<real>, n: nat, k: nat)
    requires |xs| == |lefts| && k < n <= |xs| && !OffScreen(lefts[k])
    ensures k - OffCount(lefts, k) < |Kept(xs, lefts, n)|
    ensures Kept(xs, lefts, n)[k - OffCount(lefts, k)] == xs[k]
  {
    if k < n - 1 {
      KeptAt(xs, lefts, n - 1, k);
    }
  }

  /** Everything that stays was at an on-screen position. */
  lemma {:induction false} KeptOnlyOnScreen<T>(xs: seq<T>, lefts: seq<real>, n: nat, y: T)
    requires |xs| == |lefts| && n <= |xs| && y in Kept(xs, lefts, n)
    ensures exists k :: 0 <= k < n && xs[k] == y && !OffScreen(lefts[k])
  {
    if y in Kept(xs, lefts, n - 1) {
      KeptOnlyOnScreen(xs, lefts, n - 1, y);
    } else {
      assert xs[n - 1] == y && !OffScreen(lefts[n - 1]);
    }
  }

  /** In a distinct sequence, no entry is among those kept from the positions before it. */
  lemma KeptExcludesLater<T>(xs: seq<T>, lefts: seq<real>, i: nat)
    requires |xs| == |lefts| && i < |xs| && Distinct(xs)
    ensures xs[i] !in Kept(xs, lefts, i)
  {
    forall y | y in Kept(xs, lefts, i)
      ensures y != xs[i]
    {
      KeptOnlyOnScreen(xs, lefts, i, y);
      var j :| 0 <= j < i && xs[j] == y && !OffScreen(lefts[j]);
      DistinctAt(xs, j, i);
    }
  }

  /** A removed entry never shows up among those that stay. */
  lemma RemovedNeverReappears<T>(xs: seq<T>, lefts: seq<real>, k: nat)
    requires |xs| == |lefts| && Distinct(xs) && k < |xs| && OffScreen(lefts[k])
    ensures xs[k] !in Kept(xs, lefts, |xs|)
  {
    forall y | y in Kept(xs, lefts, |xs|)
      ensures y != xs[k]
    {
      KeptOnlyOnScreen(xs, lefts, |xs|, y);
      var j :| 0 <= j < |xs| && xs[j] == y && !OffScreen(lefts[j]);
      DistinctAt(xs, j, k);
    }
  }

  /** Among any prefix, the off-screen count grows by at most one per extra position. */
  lemma {:induction false} OffCountPrefixes(lefts: seq<real>, i: nat, j: nat)
    requires i <= j <= |lefts|
    ensures OffCount(lefts, i) <= OffCount(lefts, j) <= OffCount(lefts, i) + (j - i)
    decreases j - i
  {
    if i < j {
      OffCountPrefixes(lefts, i, j - 1);
    }
  }

  /** Survivors keep their relative order: their indices among the kept entries increase. */
  lemma SurvivorsKeepOrder(lefts: seq<real>, i: nat, j: nat)
    requires i < j < |lefts| && !OffScreen(lefts[i])
    ensures i - OffCount(lefts, i) < j - OffCount(lefts, j)
  {
    OffCountPrefixes(lefts, i + 1, j);
  }

  /** What stays of a distinct list is itself distinct. */
  lemma {:induction false} KeptDistinct<T>(xs: seq<T>, lefts: seq<real>, n: nat)
    requires |xs| == |lefts| && n <= |xs| && Distinct(xs)
    ensures Distinct(Kept(xs, lefts, n))
  {
    if n > 0 {
      KeptDistinct(xs, lefts, n - 1);
      var front := Kept(xs, lefts, n - 1);
      if !OffScreen(lefts[n - 1]) {
        KeptExcludesLater(xs, lefts, n - 1);
        DistinctSnoc(front, xs[n - 1]);
        assert Kept(xs, lefts, n) == front + [xs[n - 1]];
      } else {
        assert Kept(xs, lefts, n) == front + [] == front;
      }
    }
  }

  lemma {:induction false} WithoutAbsent<T>(xs: seq<T>, p: T)
    requires p !in xs
    ensures Without(xs, p) == xs
  {
    if xs != [] {
      WithoutAbsent(xs[1..], p);
    }
  }

  lemma {:induction false} WithoutAppend<T>(xs: seq<T>, ys: seq<T>, p: T)
    ensures Without(xs + ys, p) == Without(xs, p) + Without(ys, p)
  {
    if xs == [] {
      assert xs + ys == ys;
    } else {
      var head := if xs[0] == p then [] else [xs[0]];
      assert (xs + ys)[0] == xs[0];
      assert (xs + ys)[1..] == xs[1..] + ys;
      WithoutAppend(xs[1..], ys, p);
      calc {
        Without(xs + ys, p);
        head + Without(xs[1..] + ys, p);
        head + (Without(xs[1..], p) + Without(ys, p));
        (head + Without(xs[1..], p)) + Without(ys, p);
        Without(xs, p) + Without(ys, p);
      }
    }
  }

  /** Removing an entry that occurs once drops that entry and nothing else. */
  lemma DropOnly<T>(front: seq<T>, p: T, back: seq<T>)
    requires p !in front && p !in back
    ensures Without(front + ([p] + back), p) == front + back
  {
    WithoutAppend(front, [p] + back, p);
    WithoutAppend([p], back, p);
    WithoutAbsent(front, p);
    WithoutAbsent(back, p);
    assert [p][1..] == [];
    assert Without([p], p) == [];
    assert [] + back == back;
  }

  /** One step of the walk over a distinct list: an off-screen entry is removed, any other one stays. */
  lemma WalkStep<T>(walk: seq<T>, before: seq<real>, i: nat)
    requires |walk| == |before| && i < |walk| && Distinct(walk)
    ensures OffScreen(before[i]) ==>
      Without(Kept(walk, before, i) + walk[i..], walk[i]) == Kept(walk, before, i + 1) + walk[i + 1..]
    ensures !OffScreen(before[i]) ==>
      Kept(walk, before, i) + walk[i..] == Kept(walk, before, i + 1) + walk[i + 1..]
  {
    var front := Kept(walk, before, i);
    assert walk[i..] == [walk[i]] + walk[i + 1..];
    if OffScreen(before[i]) {
      KeptExcludesLater(walk, before, i);
      NotLater(walk, i);
      DropOnly(front, walk[i], walk[i + 1..]);
      assert front + [] == front;
    } else {
      assert front + walk[i..] == (front + [walk[i]]) + walk[i + 1..];
    }
  }

  /**
   * `pipes.flatMap(pipe => pipe.rects())`: the upper and lower segment
   * rectangles of every pipe, in list order. `layout` stands for the
   * browser's geometry: the two segment rectangles of a pipe whose left
   * edge and hole top are given.
   */
  function PipeRects(ps: seq<Pipe>, layout: (real, int) -> (Rect, Rect)): (rects: seq<Rect>)
    reads ps
    ensures |rects| == 2 * |ps|
  {
    if ps == [] then []
    else
      var segments := layout(ps[0].left, ps[0].holeTop);
      [segments.0, segments.1] + PipeRects(ps[1..], layout)
  }

  /** Pipe `k`'s two segments sit at positions `2k` and `2k + 1`, the upper one first. */
  lemma {:induction false} PipeRectsSegments(ps: seq<Pipe>, layout: (real, int) -> (Rect, Rect), k: nat)
    requires k < |ps|
    ensures PipeRects(ps, layout)[2 * k] == layout(ps[k].left, ps[k].holeTop).0
    ensures PipeRects(ps, layout)[2 * k + 1] == layout(ps[k].left, ps[k].holeTop).1
    decreases k
  {
    if k > 0 {
      PipeRectsSegments(ps[1..], layout, k - 1);
    }
  }

  /** The current left edge of every pipe in the list, in list order. */
  ghost function LeftEdges(ps: seq<Pipe>): (lefts: seq<real>)
    reads ps
    ensures |lefts| == |ps|
    ensures forall k :: 0 <= k < |ps| ==> lefts[k] == ps[k].left
  {
    if ps == [] then [] else [ps[0].left] + LeftEdges(ps[1..])
  }

  /** One pipe: its left edge moves, its hole top is fixed at creation. */
  class Pipe {
    var left: real
    const holeTop: int

    constructor (left: real, holeTop: int)
      ensures this.left == left && this.holeTop == holeTop
    {
      this.left := left;
      this.holeTop := holeTop;
    }
  }

  /** The pipe module's state. */
  class PipeField {
    var pipes: seq<Pipe>
    var timeSinceLastPipe: real
    var passedPipeCount: nat

    /** Each pipe object is in the list at most once. */
    ghost predicate Valid()
      reads this
    {
      Distinct(pipes)
    }

    /**
     * Module load: the list is empty. The timer and the count are undefined
     * in the module until setup; nothing reads them before `SetupPipes`.
     */
    constructor ()
      ensures Valid() && pipes == []
    {
      pipes := [];
      timeSinceLastPipe := 0.0;
      passedPipeCount := 0;
    }

    /** A pipe's `remove()`: reassign the list without that pipe. Other pipes keep their positions. */
    method Remove(p: Pipe)
      modifies this`pipes
      ensures pipes == Without(old(pipes), p)
    {
      pipes := Without(pipes, p);
    }

    /** Remove every pipe, restart the spawn timer at one full interval and clear the count. */
    method SetupPipes()
      requires Valid()
      modifies this
      ensures Valid()
      ensures pipes == [] && timeSinceLastPipe == PipeInterval && passedPipeCount == 0
    {
      var walk := pipes;
      for i := 0 to |walk|
        invariant pipes == walk[i..]
      {
        assert walk[i..] == [] + ([walk[i]] + walk[i + 1..]);
        NotLater(walk, i);
        DropOnly([], walk[i], walk[i + 1..]);
        assert [] + walk[i + 1..] == walk[i + 1..];
        Remove(walk[i]);
      }
      timeSinceLastPipe := PipeInterval;
      passedPipeCount := 0;
    }

    /** Append a new pipe at the right edge of the window with a random hole top. */
    method CreatePipe(fieldWidth: int, fieldHeight: int, r: real) returns (ghost pipe: Pipe)
      requires 0.0 <= r < 1.0
      modifies this`pipes
      ensures fresh(pipe) && pipe.left == fieldWidth as real && pipe.holeTop == HoleTop(fieldHeight, r)
      ensures pipes == old(pipes) + [pipe]
    {
      var p := new Pipe(fieldWidth as real, HoleTop(fieldHeight, r));
      pipes := pipes + [p];
      pipe := p;
    }

    /**
     * What one `UpdatePipes` call does, given the list, the left edges, the
     * timer and the count it started from. `visited` is the list the walk
     * goes over (the starting list, plus the new pipe on a spawn) and
     * `before` holds each visited pipe's left edge when the walk began.
     */
    ghost predicate Advanced(pipes0: seq<Pipe>, lefts0: seq<real>, timer0: real, count0: nat,
                             delta: real, fieldWidth: int, fieldHeight: int, r: real,
                             visited: seq<Pipe>, before: seq<real>)
      requires 0.0 <= r < 1.0
      reads this, visited
    {
      var n := |pipes0|;
      var spawned := Spawns(timer0, delta);
      // at most one spawn, appended after the existing pipes
      && |visited| == n + (if spawned then 1 else 0)
      && |before| == |visited|
      && visited[..n] == pipes0
      && before[..n] == lefts0
      && (spawned ==> before[n] == fieldWidth as real && visited[n].holeTop == HoleTop(fieldHeight, r))
      && timeSinceLastPipe == NextTimer(timer0, delta)
      // off-screen pipes leave the list and are counted, the rest stay in order
      && pipes == Kept(visited, before, |visited|)
      && passedPipeCount == count0 + OffCount(before, |before|)
      // removed pipes do not move, every other pipe moves left by delta
      && (forall k :: 0 <= k < |visited| ==> visited[k].left == Moved(before[k], delta))
    }

    /**
     * The callback `updatePipes` runs for each pipe: a fully off-screen pipe
     * is counted and removes itself without moving; any other pipe moves left.
     * The ghost parameters place the call in the walk: `pipe` is entry `i` of
     * `walk`, and `before` holds the left edges when the walk began.
     */
    method VisitPipe(pipe: Pipe, delta: real, ghost walk: seq<Pipe>, ghost before: seq<real>, ghost i: nat)
      requires Distinct(walk) && |before| == |walk| && i < |walk| && walk[i] == pipe && pipe.left == before[i]
      requires pipes == Kept(walk, before, i) + walk[i..]
      modifies this`pipes, this`passedPipeCount, pipe
      ensures pipes == Kept(walk, before, i + 1) + walk[i + 1..]
      ensures passedPipeCount == old(passedPipeCount) + (if OffScreen(before[i]) then 1 else 0)
      ensures pipe.left == Moved(before[i], delta)
    {
      WalkStep(walk, before, i);
      if pipe.left + PipeWidth < 0.0 {
        passedPipeCount := passedPipeCount + 1;
        Remove(pipe);
        return;
      }
      pipe.left := pipe.left - delta * PipeSpeed;
    }

    /**
     * The `forEach` of `updatePipes`: it goes over the list as it stood when
     * the walk began (`remove` reassigns `pipes` instead of splicing it).
     * `before` holds each pipe's left edge when the walk began.
     */
    method WalkPipes(walk: seq<Pipe>, ghost before: seq<real>, delta: real)
      requires pipes == walk && Distinct(walk)
      requires |before| == |walk| && forall k :: 0 <= k < |walk| ==> before[k] == walk[k].left
      modifies this`pipes, this`passedPipeCount, walk
      ensures pipes == Kept(walk, before, |walk|)
      ensures passedPipeCount == old(passedPipeCount) + OffCount(before, |before|)
      ensures forall k :: 0 <= k < |walk| ==> walk[k].left == Moved(before[k], delta)
    {
      var i := 0;
      assert walk[0..] == walk;
      while i < |walk|
        invariant 0 <= i <= |walk|
        invariant pipes == Kept(walk, before, i) + walk[i..]
        invariant passedPipeCount == old(passedPipeCount) + OffCount(before, i)
        invariant forall k :: 0 <= k < |walk| ==> walk[k].left == if k < i then Moved(before[k], delta) else before[k]
      {
        DistinctOthers(walk, i);
        VisitPipe(walk[i], delta, walk, before, i);
        i := i + 1;
      }
      assert walk[i..] == [];
    }

    /** The head of `updatePipes`: advance the spawn timer and, once it passes one interval, pay one interval for a new pipe. */
    method AdvanceSpawnTimer(delta: real, fieldWidth: int, fieldHeight: int, r: real)
      requires Valid() && 0.0 <= r < 1.0
      modifies this`pipes, this`timeSinceLastPipe
      ensures Valid()
      ensures timeSinceLastPipe == NextTimer(old(timeSinceLastPipe), delta)
      ensures !Spawns(old(timeSinceLastPipe), delta) ==> pipes == old(pipes)
      ensures Spawns(old(timeSinceLastPipe), delta) ==>
        |pipes| == |old(pipes)| + 1 && pipes[..|old(pipes)|] == old(pipes)
        && fresh(pipes[|old(pipes)|]) && pipes[|old(pipes)|].left == fieldWidth as real
        && pipes[|old(pipes)|].holeTop == HoleTop(fieldHeight, r)
    {
      timeSinceLastPipe := timeSinceLastPipe + delta;
      if timeSinceLastPipe > PipeInterval {
        timeSinceLastPipe := timeSinceLastPipe - PipeInterval;
        ghost var created := CreatePipe(fieldWidth, fieldHeight, r);
        DistinctSnoc(old(pipes), created);
        assert pipes[..|old(pipes)|] == old(pipes);
      }
    }

    /** One frame of the obstacle field: spawn check first, then the walk. */
    method UpdatePipes(delta: real, fieldWidth: int, fieldHeight: int, r: real)
      returns (ghost visited: seq<Pipe>, ghost before: seq<real>)
      requires Valid() && 0.0 <= r < 1.0
      modifies this, pipes
      ensures Valid()
      ensures Advanced(old(pipes), old(LeftEdges(pipes)), old(timeSinceLastPipe), old(passedPipeCount),
                       delta, fieldWidth, fieldHeight, r, visited, before)
      ensures Spawns(old(timeSinceLastPipe), delta) ==> fresh(visited[|old(pipes)|])
    {
      ghost var lefts0 := LeftEdges(pipes);
      AdvanceSpawnTimer(delta, fieldWidth, fieldHeight, r);
      visited := pipes;
      before := LeftEdges(visited);
      assert before[..|lefts0|] == lefts0;
      WalkPipes(pipes, before, delta);
      KeptDistinct(visited, before, |visited|);
    }
  }
}
