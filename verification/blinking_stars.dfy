/**
 * `BlinkingStarsAnimator`: a fixed share of the lights are lit as "stars",
 * each in a random palette colour; every `lightInterval` milliseconds the
 * oldest star goes out and a star on a light not yet lit takes its place.
 * All other lights are black.
 */
module BlinkingStars {
  import opened Vectors
  import opened Optional
  import opened JsMath
  import ArrayExtensions
  import opened MathRandom
  import opened AnimatorProtocol

  /** A lit light and its colour. */
  datatype StarLight = StarLight(lightIndex: int, color: Color)

  /** The constructor's defaults. */
  const DefaultColors: seq<Color> := [White]
  const DefaultStarPercentage: real := 0.2
  const DefaultLightInterval: real := 80.0

  /** The configuration, the time not yet spent on replacements, and the stars, oldest first. */
  datatype StarsAnimator = StarsAnimator(
    colors: seq<Color>,
    starPercentage: real,
    lightInterval: real,
    timeAccumulatorMillis: real,
    lightQueue: seq<StarLight>)

  /**
   * At least one colour; a share of at most all lights, since with more stars
   * than lights the search for an unlit light never ends; and a positive
   * interval, since otherwise the catch-up loop never ends.
   */
  predicate Valid(a: StarsAnimator) {
    |a.colors| >= 1 && 0.0 <= a.starPercentage <= 1.0 && a.lightInterval > 0.0
  }

  /** A fresh animator: no stars, no accumulated time, defaults for missing parameters. */
  function Create(colors: Option<seq<Color>>, starPercentage: Option<real>, lightInterval: Option<real>): (a: StarsAnimator)
    ensures a.lightQueue == [] && a.timeAccumulatorMillis == 0.0
    ensures colors.None? ==> a.colors == [White]
    ensures colors.Some? ==> a.colors == colors.value
    ensures starPercentage.None? ==> a.starPercentage == 0.2
    ensures starPercentage.Some? ==> a.starPercentage == starPercentage.value
    ensures lightInterval.None? ==> a.lightInterval == 80.0
    ensures lightInterval.Some? ==> a.lightInterval == lightInterval.value
    ensures colors.None? && starPercentage.None? && lightInterval.None? ==> Valid(a)
  {
    StarsAnimator(
      colors.GetOr(DefaultColors), starPercentage.GetOr(DefaultStarPercentage),
      lightInterval.GetOr(DefaultLightInterval), 0.0, [])
  }

  // ---------------------------------------------------------------------------
  // Choosing a light

  /**
   * How many lights `Math.floor(Math.random() * lightCount)` can name: the
   * indices below the light count, and index `0` alone when there are no
   * lights.
   */
  function CandidateCount(lightCount: nat): (c: nat)
    ensures c >= 1 && c >= lightCount
  {
    if lightCount == 0 then 1 else lightCount
  }

  predicate IsCandidate(i: int, lightCount: nat) {
    0 <= i < CandidateCount(lightCount)
  }

  /** The lights the queue holds. */
  function QueueIndices(q: seq<StarLight>): set<int> {
    set k | 0 <= k < |q| :: q[k].lightIndex
  }

  /** No light is in the queue twice. */
  ghost predicate DistinctLights(q: seq<StarLight>) {
    forall j, k :: 0 <= j < k < |q| ==> q[j].lightIndex != q[k].lightIndex
  }

  /** A queue has at most as many distinct lights as entries. */
  lemma {:induction false} IndicesBound(q: seq<StarLight>)
    ensures |QueueIndices(q)| <= |q|
  {
    if q != [] {
      var r := q[..|q| - 1];
      IndicesBound(r);
      assert QueueIndices(q) == QueueIndices(r) + {q[|q| - 1].lightIndex} by {
        forall x | x in QueueIndices(q)
          ensures x in QueueIndices(r) + {q[|q| - 1].lightIndex}
        {
          var k :| 0 <= k < |q| && q[k].lightIndex == x;
          if k < |q| - 1 {
            assert r[k] == q[k];
          }
        }
        forall x | x in QueueIndices(r)
          ensures x in QueueIndices(q)
        {
          var k :| 0 <= k < |r| && r[k].lightIndex == x;
          assert q[k] == r[k];
        }
      }
    }
  }

  /** The indices `0` to `n - 1`. */
  function Range(n: nat): (r: set<int>)
    ensures forall x :: x in r <==> 0 <= x < n
    ensures |r| == n
  {
    if n == 0 then {} else
      assert n - 1 !in Range(n - 1);
      Range(n - 1) + {n - 1}
  }

  /**
   * Pigeonhole: while the queue is shorter than the number of candidates, some
   * candidate light is not in it, so the search for an unlit light ends.
   */
  lemma FreeCandidateExists(q: seq<StarLight>, lightCount: nat)
    requires |q| < CandidateCount(lightCount)
    ensures exists i :: IsCandidate(i, lightCount) && i !in QueueIndices(q)
  {
    var c := CandidateCount(lightCount);
    IndicesBound(q);
    if forall i :: IsCandidate(i, lightCount) ==> i in QueueIndices(q) {
      assert Range(c) <= QueueIndices(q);
      SubsetSize(Range(c), QueueIndices(q));
      assert false;
    }
  }

  lemma SubsetSize(a: set<int>, b: set<int>)
    requires a <= b
    ensures |a| <= |b|
  {
    assert b == a + (b - a);
  }

  /**
   * `createStarLight`: a random palette colour on a random candidate light
   * that is not already in the queue. The original draws lights until it
   * finds one not in the queue; its possible results are exactly the free
   * candidates, any of which is drawn with positive probability (see
   * `MathRandom.ScaledIndexCovers`), so the model picks any of them.
   */
  method CreateStarLight(a: StarsAnimator, q: seq<StarLight>, lightCount: nat) returns (s: StarLight)
    requires |a.colors| >= 1
    requires |q| < CandidateCount(lightCount)
    ensures IsCandidate(s.lightIndex, lightCount)
    ensures s.lightIndex !in QueueIndices(q)
    ensures s.color in a.colors
  {
    var colorIndex := RandomIndex(|a.colors|);
    FreeCandidateExists(q, lightCount);
    var lightIndex :| IsCandidate(lightIndex, lightCount) && lightIndex !in QueueIndices(q);
    s := StarLight(lightIndex, a.colors[colorIndex]);
  }

  /** Appending a star on a light not in a queue of distinct lights keeps them distinct. */
  lemma AppendDistinct(q: seq<StarLight>, s: StarLight)
    requires DistinctLights(q) && s.lightIndex !in QueueIndices(q)
    ensures DistinctLights(q + [s])
  {
    forall j, k | 0 <= j < k < |q| + 1
      ensures (q + [s])[j].lightIndex != (q + [s])[k].lightIndex
    {
      if k == |q| {
        assert q[j].lightIndex in QueueIndices(q);
      }
    }
  }

  /** An entry is kept from `q`, or is a new star on a candidate light in a palette colour. */
  ghost predicate OldOrNew(a: StarsAnimator, q: seq<StarLight>, lightCount: nat, s: StarLight) {
    s in q || (IsCandidate(s.lightIndex, lightCount) && s.color in a.colors)
  }

  /** Every star shows a palette colour. */
  ghost predicate StarsFromPalette(a: StarsAnimator) {
    forall k :: 0 <= k < |a.lightQueue| ==> a.lightQueue[k].color in a.colors
  }

  /**
   * Two rounds of keeping or adding stars: every star of the result comes from
   * the first queue or is new, and so shows a palette colour if the first
   * queue's stars do.
   */
  lemma OldOrNewTwice(a: StarsAnimator, q: seq<StarLight>, queue: seq<StarLight>, lightCount: nat)
    requires StarsFromPalette(a)
    requires forall k :: 0 <= k < |q| ==> OldOrNew(a, a.lightQueue, lightCount, q[k])
    requires forall k :: 0 <= k < |queue| ==> OldOrNew(a, q, lightCount, queue[k])
    ensures forall k :: 0 <= k < |queue| ==> queue[k].color in a.colors
  {
    forall k | 0 <= k < |queue|
      ensures queue[k].color in a.colors
    {
      if queue[k] in q {
        var j :| 0 <= j < |q| && q[j] == queue[k];
        if q[j] in a.lightQueue {
          var m :| 0 <= m < |a.lightQueue| && a.lightQueue[m] == q[j];
        }
      }
    }
  }

  // ---------------------------------------------------------------------------
  // Resizing the queue

  /** The star count after a light-count change: `starPercentage * lightCount`, rounded by `resize`. */
  function StarCount(a: StarsAnimator, lightCount: nat): (n: nat)
    requires Valid(a)
    ensures n <= CandidateCount(lightCount)
  {
    ArrayExtensions.ResizedLength(|a.lightQueue|, StarShare(a, lightCount))
  }

  /** `starPercentage * lightCount`: the wanted, possibly fractional, number of stars. */
  function StarShare(a: StarsAnimator, lightCount: nat): (x: real)
    requires Valid(a)
    ensures 0.0 <= x <= lightCount as real
  {
    ShareOfCount(a.starPercentage, lightCount, a.starPercentage * lightCount as real);
    a.starPercentage * lightCount as real
  }

  /** A share between none and all of `n` lies between `0` and `n`. */
  lemma ShareOfCount(p: real, n: nat, x: real)
    requires 0.0 <= p <= 1.0 && x == p * n as real
    ensures 0.0 <= x <= n as real
  {
    MulMonotone(0.0, p, n as real);
    MulMonotone(p, 1.0, n as real);
    assert 1.0 * n as real == n as real;
  }

  /**
   * `lightQueue.resize(starCount, () => createStarLight(lightCount))`: the
   * oldest stars are kept; each new star avoids the lights already queued,
   * including the stars added before it.
   */
  method ResizeQueue(a: StarsAnimator, size: real, lightCount: nat) returns (q: seq<StarLight>)
    requires |a.colors| >= 1 && 0.0 <= size
    requires ArrayExtensions.ResizedLength(|a.lightQueue|, size) <= CandidateCount(lightCount)
    ensures ArrayExtensions.ResizedTo(a.lightQueue, q, ArrayExtensions.ResizedLength(|a.lightQueue|, size))
    ensures forall k :: 0 <= k < |q| ==> OldOrNew(a, a.lightQueue, lightCount, q[k])
    ensures DistinctLights(a.lightQueue) ==> DistinctLights(q)
  {
    var target := ArrayExtensions.ResizedLength(|a.lightQueue|, size);
    var initialLength := |a.lightQueue|;
    q := a.lightQueue;
    if size == initialLength as real {
    } else if size > initialLength as real {
      var i := initialLength;
      while i as real < size
        invariant initialLength <= i <= target
        invariant |q| == i
        invariant q[..initialLength] == a.lightQueue
        invariant forall k :: 0 <= k < |q| ==> OldOrNew(a, a.lightQueue, lightCount, q[k])
        invariant DistinctLights(a.lightQueue) ==> DistinctLights(q)
        decreases target - i
      {
        var s := CreateStarLight(a, q, lightCount);
        if DistinctLights(a.lightQueue) {
          AppendDistinct(q, s);
        }
        q := q + [s];
        i := i + 1;
      }
      assert i == target;
    } else {
      q := a.lightQueue[..Floor(size)];
      assert forall k :: 0 <= k < |q| ==> q[k] == a.lightQueue[k];
    }
  }

  // ---------------------------------------------------------------------------
  // Replacing stars over time

  /**
   * The catch-up loop: the elapsed time is added to the accumulator and, for
   * every whole interval in it, the oldest star is dropped and a new one
   * appended. On an empty queue dropping does nothing, so the queue gains a
   * star.
   */
  method Advance(a: StarsAnimator, q: seq<StarLight>, deltaTimeMillis: int, lightCount: nat)
    returns (queue: seq<StarLight>, accumulator: real, replaced: nat)
    requires Valid(a)
    requires |q| <= CandidateCount(lightCount)
    ensures accumulator == a.timeAccumulatorMillis + deltaTimeMillis as real - Spent(replaced, a.lightInterval)
    ensures accumulator < a.lightInterval
    ensures replaced > 0 ==> 0.0 <= accumulator
    ensures a.timeAccumulatorMillis + deltaTimeMillis as real >= 0.0 ==>
      replaced == Floor((a.timeAccumulatorMillis + deltaTimeMillis as real) / a.lightInterval)
    ensures a.timeAccumulatorMillis + deltaTimeMillis as real >= 0.0 ==>
      accumulator == JsMod(a.timeAccumulatorMillis + deltaTimeMillis as real, a.lightInterval)
    ensures a.timeAccumulatorMillis + deltaTimeMillis as real < a.lightInterval <==> replaced == 0
    ensures replaced == 0 ==> queue == q
    ensures replaced > 0 ==> |queue| == (if |q| == 0 then 1 else |q|)
    ensures replaced <= |q| ==> queue[..|q| - replaced] == q[replaced..]
    ensures forall k :: 0 <= k < |queue| ==> OldOrNew(a, q, lightCount, queue[k])
    ensures DistinctLights(q) ==> DistinctLights(queue)
  {
    var interval := a.lightInterval;
    accumulator := a.timeAccumulatorMillis + deltaTimeMillis as real;
    queue := q;
    replaced := 0;
    while accumulator >= interval
      invariant accumulator == a.timeAccumulatorMillis + deltaTimeMillis as real - Spent(replaced, interval)
      invariant replaced > 0 ==> 0.0 <= accumulator
      invariant a.timeAccumulatorMillis + deltaTimeMillis as real < interval ==> replaced == 0
      invariant replaced == 0 ==> queue == q
      invariant replaced > 0 ==> |queue| == (if |q| == 0 then 1 else |q|)
      invariant |queue| <= CandidateCount(lightCount)
      invariant replaced <= |q| ==> queue[..|q| - replaced] == q[replaced..]
      invariant forall k :: 0 <= k < |queue| ==> OldOrNew(a, q, lightCount, queue[k])
      invariant DistinctLights(q) ==> DistinctLights(queue)
      decreases Floor(accumulator / interval)
    {
      queue := ReplaceOldest(a, q, queue, replaced, lightCount);
      ghost var before := accumulator;
      accumulator := accumulator - interval;
      FloorDecreases(before, accumulator, interval);
      replaced := replaced + 1;
    }
    if a.timeAccumulatorMillis + deltaTimeMillis as real >= 0.0 {
      CountedIntervals(a.timeAccumulatorMillis + deltaTimeMillis as real, interval, replaced, accumulator);
    }
  }

  /**
   * One step of the loop: the oldest star goes out (if there is one) and a new
   * star comes in, given the queue `q` the loop started from and `replaced`
   * steps taken so far.
   */
  method ReplaceOldest(a: StarsAnimator, q: seq<StarLight>, queue: seq<StarLight>, replaced: nat, lightCount: nat)
    returns (next: seq<StarLight>)
    requires |a.colors| >= 1
    requires |queue| <= CandidateCount(lightCount)
    requires replaced > 0 ==> |queue| == (if |q| == 0 then 1 else |q|)
    requires replaced == 0 ==> queue == q
    requires replaced <= |q| ==> queue[..|q| - replaced] == q[replaced..]
    requires forall k :: 0 <= k < |queue| ==> OldOrNew(a, q, lightCount, queue[k])
    requires DistinctLights(q) ==> DistinctLights(queue)
    ensures |next| == (if |q| == 0 then 1 else |q|)
    ensures |next| <= CandidateCount(lightCount)
    ensures replaced + 1 <= |q| ==> next[..|q| - (replaced + 1)] == q[replaced + 1..]
    ensures forall k :: 0 <= k < |next| ==> OldOrNew(a, q, lightCount, next[k])
    ensures DistinctLights(q) ==> DistinctLights(next)
  {
    var rest := if |queue| > 0 then queue[1..] else [];
    var s := CreateStarLight(a, rest, lightCount);
    if DistinctLights(q) {
      AppendDistinct(rest, s);
    }
    DropOldest(q, queue, rest, s, replaced);
    next := rest + [s];
  }

  /** The time spent on `n` replacements of one interval each. */
  function Spent(n: nat, interval: real): (t: real)
    ensures interval >= 0.0 ==> t >= 0.0
  {
    if n == 0 then 0.0 else Spent(n - 1, interval) + interval
  }

  lemma {:induction false} SpentIsProduct(n: nat, interval: real)
    ensures Spent(n, interval) == n as real * interval
  {
    if n > 0 {
      SpentIsProduct(n - 1, interval);
    }
  }

  /** Dropping the oldest star and appending one keeps the surviving old stars in order at the front. */
  lemma DropOldest(q: seq<StarLight>, queue: seq<StarLight>, rest: seq<StarLight>, s: StarLight, replaced: nat)
    requires rest == (if |queue| > 0 then queue[1..] else [])
    requires replaced > 0 ==> |queue| == (if |q| == 0 then 1 else |q|)
    requires replaced == 0 ==> queue == q
    requires replaced <= |q| ==> queue[..|q| - replaced] == q[replaced..]
    ensures replaced + 1 <= |q| ==> (rest + [s])[..|q| - (replaced + 1)] == q[replaced + 1..]
  {
    if replaced + 1 <= |q| {
      assert |queue| == |q|;
      assert (rest + [s])[..|q| - (replaced + 1)] == queue[1..|q| - replaced];
      assert queue[1..|q| - replaced] == queue[..|q| - replaced][1..];
    }
  }

  /** Subtracting one interval lowers the number of whole intervals by one. */
  lemma FloorDecreases(before: real, after: real, interval: real)
    requires 0.0 < interval && before >= interval && after == before - interval
    ensures 0 <= Floor(after / interval) < Floor(before / interval)
  {
    DivOfShifted(after, interval, 1.0, before);
    NonNegativeQuotient(after, interval);
  }

  /** The loop ran once per whole interval in the accumulated time. */
  lemma CountedIntervals(total: real, interval: real, replaced: nat, rest: real)
    requires 0.0 <= total && 0.0 < interval
    requires rest == total - Spent(replaced, interval)
    requires rest < interval && (replaced > 0 ==> 0.0 <= rest)
    ensures replaced == Floor(total / interval)
    ensures rest == JsMod(total, interval)
  {
    SpentIsProduct(replaced, interval);
    FloorOfDivision(total, interval, replaced, rest);
    assert Trunc(total / interval) == replaced;
  }

  // ---------------------------------------------------------------------------
  // The animator interface

  /**
   * What `prepareUpdate` makes of the animator: configuration kept, the queue
   * within the candidate lights, the accumulator left with the remainder of
   * the elapsed time; with no whole interval elapsed the queue is the resized
   * one (or the old one without a count change), and otherwise it holds the
   * star count, at least one star.
   */
  ghost predicate PreparedFrom(a: StarsAnimator, ctx: AnimatorContext, r: StarsAnimator)
    requires Valid(a)
  {
    var acc := a.timeAccumulatorMillis + ctx.deltaTimeMillis as real;
    && r.colors == a.colors && r.starPercentage == a.starPercentage && r.lightInterval == a.lightInterval
    && |r.lightQueue| <= CandidateCount(ctx.lightCount)
    && r.timeAccumulatorMillis < a.lightInterval
    && (acc < a.lightInterval ==> r.timeAccumulatorMillis == acc)
    && (a.lightInterval > 0.0 && acc >= 0.0 ==> r.timeAccumulatorMillis == JsMod(acc, a.lightInterval))
    && (acc >= a.lightInterval ==>
          var before := if ctx.hasLightCountChanged then StarCount(a, ctx.lightCount) else |a.lightQueue|;
          |r.lightQueue| == (if before == 0 then 1 else before))
    && (acc < a.lightInterval ==>
          if ctx.hasLightCountChanged then ArrayExtensions.ResizedTo(a.lightQueue, r.lightQueue, StarCount(a, ctx.lightCount))
          else r.lightQueue == a.lightQueue)
  }

  /**
   * `prepareUpdate`: resize the queue to the star count if the light count
   * changed, then replace one star per whole interval elapsed. The queue
   * never outgrows the candidate lights, which keeps every search for an
   * unlit light finite.
   */
  method PrepareUpdate(a: StarsAnimator, ctx: AnimatorContext) returns (r: StarsAnimator)
    requires Valid(a)
    requires ctx.hasLightCountChanged || |a.lightQueue| <= CandidateCount(ctx.lightCount)
    ensures r.colors == a.colors && r.starPercentage == a.starPercentage && r.lightInterval == a.lightInterval
    ensures |r.lightQueue| <= CandidateCount(ctx.lightCount)
    ensures r.timeAccumulatorMillis < a.lightInterval
    ensures a.timeAccumulatorMillis + ctx.deltaTimeMillis as real < a.lightInterval ==>
      r.timeAccumulatorMillis == a.timeAccumulatorMillis + ctx.deltaTimeMillis as real
    ensures a.timeAccumulatorMillis + ctx.deltaTimeMillis as real >= 0.0 ==>
      r.timeAccumulatorMillis == JsMod(a.timeAccumulatorMillis + ctx.deltaTimeMillis as real, a.lightInterval)
    ensures a.timeAccumulatorMillis + ctx.deltaTimeMillis as real >= a.lightInterval ==>
      var before := if ctx.hasLightCountChanged then StarCount(a, ctx.lightCount) else |a.lightQueue|;
      |r.lightQueue| == (if before == 0 then 1 else before)
    ensures a.timeAccumulatorMillis + ctx.deltaTimeMillis as real < a.lightInterval ==>
      (if ctx.hasLightCountChanged then ArrayExtensions.ResizedTo(a.lightQueue, r.lightQueue, StarCount(a, ctx.lightCount))
       else r.lightQueue == a.lightQueue)
    ensures DistinctLights(a.lightQueue) ==> DistinctLights(r.lightQueue)
    ensures StarsFromPalette(a) ==> StarsFromPalette(r)
    ensures PreparedFrom(a, ctx, r)
  {
    var q := ResizeOnCountChange(a, ctx);
    var queue, accumulator, replaced := Advance(a, q, ctx.deltaTimeMillis, ctx.lightCount);
    r := a.(timeAccumulatorMillis := accumulator, lightQueue := queue);
    if StarsFromPalette(a) {
      OldOrNewTwice(a, q, queue, ctx.lightCount);
    }
  }

  /** The first half of `prepareUpdate`: the resize when the light count changed. */
  method ResizeOnCountChange(a: StarsAnimator, ctx: AnimatorContext) returns (q: seq<StarLight>)
    requires Valid(a)
    requires ctx.hasLightCountChanged || |a.lightQueue| <= CandidateCount(ctx.lightCount)
    ensures |q| <= CandidateCount(ctx.lightCount)
    ensures ctx.hasLightCountChanged ==> ArrayExtensions.ResizedTo(a.lightQueue, q, StarCount(a, ctx.lightCount))
    ensures !ctx.hasLightCountChanged ==> q == a.lightQueue
    ensures |q| == if ctx.hasLightCountChanged then StarCount(a, ctx.lightCount) else |a.lightQueue|
    ensures forall k :: 0 <= k < |q| ==> OldOrNew(a, a.lightQueue, ctx.lightCount, q[k])
    ensures DistinctLights(a.lightQueue) ==> DistinctLights(q)
  {
    q := a.lightQueue;
    if ctx.hasLightCountChanged {
      q := ResizeQueue(a, StarShare(a, ctx.lightCount), ctx.lightCount);
    } else {
      assert forall k :: 0 <= k < |q| ==> q[k] in a.lightQueue;
    }
  }

  /** The position of the first star on light `i`, if any. */
  function FirstStar(q: seq<StarLight>, i: int): (r: Option<nat>)
    ensures r.None? <==> i !in QueueIndices(q)
    ensures r.Some? ==> r.value < |q| && q[r.value].lightIndex == i
    ensures r.Some? ==> forall j :: 0 <= j < r.value ==> q[j].lightIndex != i
  {
    if q == [] then None
    else if q[0].lightIndex == i then Some(0)
    else
      match FirstStar(q[1..], i)
      case None =>
        assert QueueIndices(q) == {q[0].lightIndex} + QueueIndices(q[1..]) by {
          forall x | x in QueueIndices(q)
            ensures x in {q[0].lightIndex} + QueueIndices(q[1..])
          {
            var k :| 0 <= k < |q| && q[k].lightIndex == x;
            if k > 0 {
              assert q[1..][k - 1] == q[k];
            }
          }
        }
        None
      case Some(k) =>
        assert q[k + 1] == q[1..][k];
        assert q[k + 1].lightIndex in QueueIndices(q);
        Some(k + 1)
  }

  /**
   * `colorLight`: the colour of the first star on the light, or black when
   * the light is not a star.
   */
  function ColorLight(a: StarsAnimator, lightIndex: nat): (c: Color)
    ensures lightIndex !in QueueIndices(a.lightQueue) ==> c == Black
    ensures lightIndex in QueueIndices(a.lightQueue) ==>
      exists k :: 0 <= k < |a.lightQueue| && a.lightQueue[k].lightIndex == lightIndex && c == a.lightQueue[k].color
  {
    match FirstStar(a.lightQueue, lightIndex)
    case None => Black
    case Some(k) => a.lightQueue[k].color
  }

  /** With distinct lights in the queue, every star shows exactly its own colour. */
  lemma StarShowsItsColor(a: StarsAnimator, k: nat)
    requires DistinctLights(a.lightQueue) && k < |a.lightQueue|
    requires a.lightQueue[k].lightIndex >= 0
    ensures ColorLight(a, a.lightQueue[k].lightIndex as nat) == a.lightQueue[k].color
  {
    var i := a.lightQueue[k].lightIndex;
    assert i in QueueIndices(a.lightQueue);
    var j := FirstStar(a.lightQueue, i).value;
    assert j == k;
  }
}
