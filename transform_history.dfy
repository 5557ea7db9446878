/**
  The bounded per-edge history of the transform buffer and the time lookup
  on one edge (schiebung-core/src/lib.rs).
*/
module TransformHistories {
  import opened Wrappers
  import opened Geometry
  import opened CoreTypes

  /** The errors the buffer reports. */
  datatype TfError =
    | AttemptedLookupInPast
    | AttemptedLookUpInFuture
    | CouldNotFindTransform
    | InvalidGraph

  /** The history after pushing s on the back and dropping the front once the length exceeds maxHistory. */
  function Pushed(h: seq<StampedIsometry>, s: StampedIsometry, maxHistory: nat): (r: seq<StampedIsometry>)
    ensures |h| <= |r| <= |h| + 1
    ensures r == (h + [s])[|h| + 1 - |r|..]
    ensures |r| == |h| + 1 <==> |h| < maxHistory
    ensures |h| <= maxHistory && maxHistory >= 1 ==> 1 <= |r| <= maxHistory && r[|r| - 1] == s
  {
    var g := h + [s];
    if |g| > maxHistory then g[1..] else g
  }

  /**
    The samples of one edge with the kind and the bound fixed at creation.
    The graph owns each history, so it is a value the buffer replaces.
  */
  datatype TransformHistory = TransformHistory(history: seq<StampedIsometry>, kind: TransformType, maxHistory: nat)
  {
    /** `update`: push the sample on the back, drop the front once over the bound. */
    function Update(s: StampedIsometry): (r: TransformHistory)
      ensures r.kind == kind && r.maxHistory == maxHistory
      ensures |history| <= |r.history| <= |history| + 1
      ensures r.history == (history + [s])[|history| + 1 - |r.history|..]
      ensures |r.history| == |history| + 1 <==> |history| < maxHistory
      ensures |history| <= maxHistory && maxHistory >= 1 ==>
                1 <= |r.history| <= maxHistory && r.history[|r.history| - 1] == s
    {
      this.(history := Pushed(history, s, maxHistory))
    }
  }

  ghost predicate StrictlyAscending(h: seq<StampedIsometry>) {
    forall i, j | 0 <= i < j < |h| :: h[i].stamp < h[j].stamp
  }

  /** Pushing a sample younger than every stored one keeps the history in ascending stamp order. */
  lemma PushKeepsAscending(h: seq<StampedIsometry>, s: StampedIsometry, maxHistory: nat)
    requires StrictlyAscending(h)
    requires forall i | 0 <= i < |h| :: h[i].stamp < s.stamp
    ensures StrictlyAscending(Pushed(h, s, maxHistory))
  {
    var g := h + [s];
    var r := Pushed(h, s, maxHistory);
    var d := |h| + 1 - |r|;
    assert StrictlyAscending(g);
    forall i, j | 0 <= i < j < |r|
      ensures r[i].stamp < r[j].stamp
    {
      assert r[i] == g[i + d] && r[j] == g[j + d];
    }
  }

  /**
    Where `binary_search_by` on the stamps would land for `time`: the first
    position whose stamp is not below `time`.
  */
  function LowerBound(h: seq<StampedIsometry>, time: real): (i: nat)
    ensures i <= |h|
    ensures forall j | 0 <= j < i :: h[j].stamp < time
    ensures i < |h| ==> h[i].stamp >= time
  {
    if |h| == 0 || h[0].stamp >= time then 0 else 1 + LowerBound(h[1..], time)
  }

  /** `interpolate_isometry_at_time`. */
  function Interpolate(kind: TransformType, h: seq<StampedIsometry>, time: real): (r: Result<Isometry, TfError>)
    requires kind == Static ==> |h| > 0
    ensures kind == Static ==> r == Ok(h[|h| - 1].isometry)
    ensures kind == Dynamic && |h| < 2 ==> r == Err(CouldNotFindTransform)
    ensures r.Err? ==> r.error != InvalidGraph
  {
    match kind
    case Static => Ok(h[|h| - 1].isometry)
    case Dynamic =>
      if |h| < 2 then Err(CouldNotFindTransform)
      else
        var i := LowerBound(h, time);
        if i < |h| && h[i].stamp == time then Ok(h[i].isometry)
        else if i == 0 then Err(AttemptedLookupInPast)
        else if i >= |h| then Err(AttemptedLookUpInFuture)
        else
          var weight := (time - h[i - 1].stamp) / (h[i].stamp - h[i - 1].stamp);
          Ok(LerpSlerp(h[i - 1].isometry, h[i].isometry, weight))
  }

  /** The position of the interpolation weight between t0 and t1, as the source computes it. */
  function Weight(t0: real, t1: real, time: real): real
    requires t0 < t1
  {
    (time - t0) / (t1 - t0)
  }

  /**
    On a dynamic history of at least two samples in ascending stamp order:
    an exact stamp yields that sample, a time before the first stamp or after
    the last is refused, and a time strictly between two neighbours blends
    them with a weight strictly inside (0, 1).
  */
  lemma InterpolateAscending(h: seq<StampedIsometry>, time: real)
    requires |h| >= 2 && StrictlyAscending(h)
    ensures forall i | 0 <= i < |h| && h[i].stamp == time :: Interpolate(Dynamic, h, time) == Ok(h[i].isometry)
    ensures time < h[0].stamp ==> Interpolate(Dynamic, h, time) == Err(AttemptedLookupInPast)
    ensures time > h[|h| - 1].stamp ==> Interpolate(Dynamic, h, time) == Err(AttemptedLookUpInFuture)
    ensures forall i | 0 < i < |h| && h[i - 1].stamp < time < h[i].stamp ::
      && Interpolate(Dynamic, h, time) == Ok(LerpSlerp(h[i - 1].isometry, h[i].isometry, Weight(h[i - 1].stamp, h[i].stamp, time)))
      && 0.0 < Weight(h[i - 1].stamp, h[i].stamp, time) < 1.0
  {
    var lb := LowerBound(h, time);
    forall i | 0 <= i < |h| && h[i].stamp <= time
      ensures lb > i || h[i].stamp == time
    {
    }
    forall i | 0 <= i < |h| && h[i].stamp >= time
      ensures lb <= i
    {
    }
    forall i | 0 < i < |h| && h[i - 1].stamp < time < h[i].stamp
      ensures 0.0 < Weight(h[i - 1].stamp, h[i].stamp, time) < 1.0
    {
      var t0, t1 := h[i - 1].stamp, h[i].stamp;
      assert 0.0 < time - t0 < t1 - t0;
      WeightInside(t0, t1, time);
    }
  }

  lemma WeightInside(t0: real, t1: real, time: real)
    requires t0 < time < t1
    ensures 0.0 < Weight(t0, t1, time) < 1.0
  {
    var num, den := time - t0, t1 - t0;
    var w := num / den;
    assert w * den == num;
    PositiveFactor(w, den);
    assert (1.0 - w) * den == den - w * den;
    PositiveFactor(1.0 - w, den);
  }

  lemma PositiveFactor(x: real, d: real)
    requires d > 0.0 && x * d > 0.0
    ensures x > 0.0
  {
  }
}
