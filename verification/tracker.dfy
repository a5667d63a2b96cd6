/**
 * The sliding-window majority vote that turns a stream of per-frame image
 * classifications into occasional confident detections (class `Tracker` of
 * lab11/CozmoImageClassification.py).
 *
 * A tracker keeps the last `threshold` predictions in a bounded window, a
 * per-label count kept in step with the window, and a frame counter. Once the
 * window is full, the label with the largest count (the first one in the fixed
 * key order on ties) is reported as a detection when it is not `none` and fills
 * at least 70% of the window; a detection empties the tracker.
 */
module PredictionTracker {
  import opened Outcomes

  /** The eight class labels, in the insertion order of the counts dictionary. */
  datatype Label = Drone | Hands | Inspection | NoneLabel | Order | Place | Plane | Truck

  /** Iteration order of the counts dictionary built by `resetMap`. */
  const KeyOrder: seq<Label> := [Drone, Hands, Inspection, NoneLabel, Order, Place, Plane, Truck]

  /** Position of a label in `KeyOrder`. */
  function Rank(l: Label): (i: nat)
    ensures i < |KeyOrder| && KeyOrder[i] == l
  {
    match l
    case Drone => 0
    case Hands => 1
    case Inspection => 2
    case NoneLabel => 3
    case Order => 4
    case Place => 5
    case Plane => 6
    case Truck => 7
  }

  /**
   * The tracker's fields. `frames` is the bounded deque (oldest first) whose
   * `maxlen` is `threshold`; `size` is the field the source decrements on every
   * eviction and never increments.
   */
  datatype Tracker = Tracker(
    frames: seq<Label>,
    size: int,
    counts: map<Label, int>,
    threshold: int,
    frameCounter: int)

  /** What `addPrediction` returns: the `valid` flag and `maxPrediction`. */
  datatype Verdict = Verdict(valid: bool, prediction: Option<Label>)

  /** `counts` holds, for every label, that label's number of occurrences in `window`. */
  ghost predicate CountsMatch(counts: map<Label, int>, window: seq<Label>)
  {
    forall l: Label :: l in counts && counts[l] == multiset(window)[l]
  }

  /** The invariant every tracker keeps between calls. */
  ghost predicate Valid(t: Tracker)
  {
    && t.threshold > 0
    && |t.frames| <= t.threshold
    && CountsMatch(t.counts, t.frames)
    && t.size <= 0
    && t.frameCounter >= 0
  }

  /** The last `n` elements of `s` (all of `s` when it is shorter). */
  function LastN<T>(s: seq<T>, n: nat): (r: seq<T>)
    ensures |r| == if |s| < n then |s| else n
    ensures forall i :: 0 <= i < |r| ==> r[i] == s[|s| - |r| + i]
  {
    if |s| <= n then s else s[|s| - n..]
  }

  /** Every label is one of the keys of the counts dictionary. */
  lemma AllLabelsListed()
    ensures forall l: Label :: l in KeyOrder
  {
    forall l: Label ensures l in KeyOrder {
      assert KeyOrder[Rank(l)] == l;
    }
  }

  /** `resetMap`: every label mapped to zero, which is the count of an empty window. */
  function ResetMap(): (m: map<Label, int>)
    ensures CountsMatch(m, [])
  {
    AllLabelsListed();
    map l | l in KeyOrder :: 0
  }

  /** `__init__`: an empty window of capacity `threshold`. */
  function Create(threshold: int): (t: Tracker)
    requires threshold > 0
    ensures Valid(t)
    ensures t.frames == [] && t.threshold == threshold
    ensures t.frameCounter == 0 && t.size == 0
  {
    Tracker([], 0, ResetMap(), threshold, 0)
  }

  /** `resetTracker`: clears the window, zeroes the counts and the frame counter. */
  function ResetTracker(t: Tracker): (t': Tracker)
    requires Valid(t)
    ensures Valid(t')
    ensures t'.frames == [] && t'.frameCounter == 0
    ensures forall l: Label :: t'.counts[l] == 0
    ensures t'.threshold == t.threshold && t'.size == t.size
  {
    t.(frames := [], counts := ResetMap(), frameCounter := 0)
  }

  /**
   * The scan `for key, value in counts.items(): if value > maxCount: ...` over
   * the keys from position `k` of the key order on, from the running `best`
   * and `bestCount`. The count it ends on bounds the running count and every
   * count it scans. The running label survives when no scanned count beats
   * the running one; otherwise the first key of the largest count wins.
   */
  function MaxScan(counts: map<Label, int>, k: nat, best: Option<Label>, bestCount: int)
    : (r: (Option<Label>, int))
    requires forall l: Label :: l in counts
    ensures r.1 >= bestCount
    ensures forall i :: k <= i < |KeyOrder| ==> counts[KeyOrder[i]] <= r.1
    ensures r.1 == bestCount ==> r.0 == best
    ensures r.1 > bestCount ==>
      && r.0.Some? && k <= Rank(r.0.value) && counts[r.0.value] == r.1
      && (forall i :: k <= i < Rank(r.0.value) ==> counts[KeyOrder[i]] < r.1)
    decreases |KeyOrder| - k
  {
    if k >= |KeyOrder| then (best, bestCount)
    else if counts[KeyOrder[k]] > bestCount then MaxScan(counts, k + 1, Some(KeyOrder[k]), counts[KeyOrder[k]])
    else MaxScan(counts, k + 1, best, bestCount)
  }

  /**
   * `w` is the first label in key order whose count in `window` is maximal:
   * no label occurs more often, and every label before it occurs strictly less.
   */
  ghost predicate IsFirstMax(window: seq<Label>, w: Label)
  {
    && (forall l: Label :: multiset(window)[l] <= multiset(window)[w])
    && (forall l: Label :: Rank(l) < Rank(w) ==> multiset(window)[l] < multiset(window)[w])
  }

  /** The window after `p` is added: the last `threshold` predictions. */
  function Window(t: Tracker, p: Label): seq<Label>
    requires Valid(t)
  {
    LastN(t.frames + [p], t.threshold)
  }

  /**
   * The first half of `addPrediction`: bump the frame counter, evict the oldest
   * prediction when the window is full, then append `p`; counts follow the window.
   */
  function Shift(t: Tracker, p: Label): (t': Tracker)
    requires Valid(t)
    ensures Valid(t')
    ensures t'.frames == Window(t, p)
    ensures t'.threshold == t.threshold && t'.frameCounter == t.frameCounter + 1
    ensures t'.size <= t.size
  {
    var full := |t.frames| == t.threshold;
    var frames1 := if full then t.frames[1..] else t.frames;
    var counts1 := if full then t.counts[t.frames[0] := t.counts[t.frames[0]] - 1] else t.counts;
    var size1 := if full then t.size - 1 else t.size;
    assert CountsMatch(counts1, frames1) by {
      if full {
        assert t.frames == [t.frames[0]] + frames1;
      }
    }
    var frames2 := frames1 + [p];
    var counts2 := counts1[p := counts1[p] + 1];
    assert frames2 == LastN(t.frames + [p], t.threshold) by {
      if full {
        assert (t.frames + [p])[1..] == frames2;
      }
    }
    Tracker(frames2, size1, counts2, t.threshold, t.frameCounter + 1)
  }

  /** `addPrediction`: the new tracker and the verdict it returns. */
  function AddPrediction(t: Tracker, p: Label): (r: (Tracker, Verdict))
    requires Valid(t)
    ensures Valid(r.0)
    ensures r.0.threshold == t.threshold && r.0.size <= t.size
    ensures |Window(t, p)| < t.threshold ==> r.1 == Verdict(false, None)
    ensures |Window(t, p)| == t.threshold ==>
      r.1.prediction.Some? && IsFirstMax(Window(t, p), r.1.prediction.value)
    ensures r.1.valid <==>
      && |Window(t, p)| == t.threshold
      && r.1.prediction.Some?
      && r.1.prediction.value != NoneLabel
      && 10 * multiset(Window(t, p))[r.1.prediction.value] >= 7 * t.threshold
    ensures r.1.valid ==> r.0.frames == [] && r.0.frameCounter == 0
    ensures r.1.valid ==> forall l: Label :: r.0.counts[l] == 0
    ensures !r.1.valid ==> r.0.frames == Window(t, p) && r.0.frameCounter == t.frameCounter + 1
  {
    var t2 := Shift(t, p);
    if |t2.frames| == t.threshold then
      var scan := MaxScan(t2.counts, 0, None, -1);
      MaxScanIsFirstMax(t2.counts, t2.frames);
      if scan.0.Some? && scan.0.value != NoneLabel && 10 * scan.1 >= 7 * t.threshold then
        (ResetTracker(t2), Verdict(true, scan.0))
      else
        (t2, Verdict(false, scan.0))
    else
      (t2, Verdict(false, None))
  }

  /**
   * The scan from position `k`, started from a running maximum that is correct
   * for the first `k` keys (held at position `bi`), ends on the first label of
   * maximal count.
   */
  lemma {:induction false} MaxScanFrom(
    counts: map<Label, int>, k: nat, best: Option<Label>, bestCount: int, bi: nat)
    requires k <= |KeyOrder|
    requires forall l: Label :: l in counts && counts[l] >= 0
    requires best.None? ==> k == 0 && bestCount == -1
    requires best.Some? ==>
      && bi < k
      && best.value == KeyOrder[bi]
      && bestCount == counts[KeyOrder[bi]]
      && (forall i :: 0 <= i < k ==> counts[KeyOrder[i]] <= bestCount)
      && (forall i :: 0 <= i < bi ==> counts[KeyOrder[i]] < bestCount)
    ensures var (w, c) := MaxScan(counts, k, best, bestCount);
      && w.Some?
      && c == counts[w.value]
      && (forall i :: 0 <= i < |KeyOrder| ==> counts[KeyOrder[i]] <= c)
      && (forall i :: 0 <= i < Rank(w.value) ==> counts[KeyOrder[i]] < c)
    decreases |KeyOrder| - k
  {
    if k == |KeyOrder| {
      assert Rank(best.value) == bi;
    } else if counts[KeyOrder[k]] > bestCount {
      MaxScanFrom(counts, k + 1, Some(KeyOrder[k]), counts[KeyOrder[k]], k);
    } else {
      MaxScanFrom(counts, k + 1, best, bestCount, bi);
    }
  }

  /** With counts in step with a window, the full scan of `addPrediction` finds its first maximum. */
  lemma MaxScanIsFirstMax(counts: map<Label, int>, window: seq<Label>)
    requires CountsMatch(counts, window)
    ensures var (w, c) := MaxScan(counts, 0, None, -1);
      && w.Some?
      && c == multiset(window)[w.value]
      && IsFirstMax(window, w.value)
  {
    MaxScanFrom(counts, 0, None, -1, 0);
    var (w, c) := MaxScan(counts, 0, None, -1);
    forall l: Label ensures multiset(window)[l] <= c {
      assert KeyOrder[Rank(l)] == l;
    }
  }

  /** Feeds the predictions `ps` one after another; returns the final tracker and every verdict. */
  function Feed(t: Tracker, ps: seq<Label>): (r: (Tracker, seq<Verdict>))
    requires Valid(t)
    ensures Valid(r.0) && r.0.threshold == t.threshold
    ensures |r.1| == |ps|
    decreases |ps|
  {
    if ps == [] then (t, [])
    else
      var (t1, v) := AddPrediction(t, ps[0]);
      var (tn, vs) := Feed(t1, ps[1..]);
      (tn, [v] + vs)
  }

  /** Keeping the last `n` elements commutes with appending more. */
  lemma LastNAppend<T>(s: seq<T>, u: seq<T>, n: nat)
    ensures LastN(LastN(s, n) + u, n) == LastN(s + u, n)
  {
    var a, b := LastN(LastN(s, n) + u, n), LastN(s + u, n);
    assert |a| == |b|;
    forall i | 0 <= i < |a| ensures a[i] == b[i] {
      var lu := LastN(s, n) + u;
      if |lu| - |a| + i >= |LastN(s, n)| {
        assert a[i] == u[|lu| - |a| + i - |LastN(s, n)|];
      }
    }
  }

  /** No verdict in `vs` reports a detection. */
  predicate NoneFired(vs: seq<Verdict>)
  {
    forall i :: 0 <= i < |vs| ==> !vs[i].valid
  }

  /** Appending the head of `ps` and then its tail appends all of `ps`. */
  lemma AppendHead<T>(s: seq<T>, ps: seq<T>)
    requires ps != []
    ensures (s + [ps[0]]) + ps[1..] == s + ps
  {
    assert ps == [ps[0]] + ps[1..];
  }

  /**
   * As long as no detection fires, the window holds exactly the last
   * `threshold` predictions seen and the frame counter counts every call.
   */
  lemma {:induction false} QuietFeedKeepsLastPredictions(t: Tracker, ps: seq<Label>)
    requires Valid(t)
    requires NoneFired(Feed(t, ps).1)
    ensures Feed(t, ps).0.frames == LastN(t.frames + ps, t.threshold)
    ensures Feed(t, ps).0.frameCounter == t.frameCounter + |ps|
    decreases |ps|
  {
    if ps == [] {
      assert t.frames + ps == t.frames;
    } else {
      var t1 := AddPrediction(t, ps[0]).0;
      QuietHead(t, ps);
      FeedUnfold(t, ps);
      QuietFeedKeepsLastPredictions(t1, ps[1..]);
      LastNAppend(t.frames + [ps[0]], ps[1..], t.threshold);
      AppendHead(t.frames, ps);
    }
  }

  /** A quiet stream starts with a quiet call, and the rest of the stream is quiet too. */
  lemma {:induction false} QuietHead(t: Tracker, ps: seq<Label>)
    requires Valid(t) && ps != []
    requires NoneFired(Feed(t, ps).1)
    ensures !AddPrediction(t, ps[0]).1.valid
    ensures NoneFired(Feed(AddPrediction(t, ps[0]).0, ps[1..]).1)
  {
    var step := AddPrediction(t, ps[0]);
    var rest := Feed(step.0, ps[1..]);
    FeedUnfold(t, ps);
    var vs := Feed(t, ps).1;
    assert vs[0] == step.1;
    forall i | 0 <= i < |rest.1| ensures !rest.1[i].valid {
      assert vs[i + 1] == rest.1[i];
    }
  }

  /** One step of `Feed`: the first call, then the rest of the stream from its tracker. */
  lemma FeedUnfold(t: Tracker, ps: seq<Label>)
    requires Valid(t) && ps != []
    ensures Feed(t, ps).0 == Feed(AddPrediction(t, ps[0]).0, ps[1..]).0
    ensures Feed(t, ps).1 == [AddPrediction(t, ps[0]).1] + Feed(AddPrediction(t, ps[0]).0, ps[1..]).1
  {
  }

  /**
   * While the window is filling up no detection can fire: every call answers
   * `(False, None)`. In particular a tracker that has just fired stays silent
   * for the next `threshold - 1` predictions.
   */
  lemma {:induction false} SilentWhileFilling(t: Tracker, ps: seq<Label>)
    requires Valid(t)
    requires |t.frames| + |ps| < t.threshold
    ensures forall i :: 0 <= i < |ps| ==> Feed(t, ps).1[i] == Verdict(false, None)
    decreases |ps|
  {
    if ps != [] {
      var step := AddPrediction(t, ps[0]);
      assert step.1 == Verdict(false, None);
      SilentWhileFilling(step.0, ps[1..]);
      FeedUnfold(t, ps);
      SilentPrefix(step.1, Feed(step.0, ps[1..]).1);
    }
  }

  /** A silent verdict in front of silent verdicts keeps the stream silent (the inductive step of `SilentWhileFilling`). */
  lemma SilentPrefix(v: Verdict, vs: seq<Verdict>)
    requires v == Verdict(false, None)
    requires forall i :: 0 <= i < |vs| ==> vs[i] == Verdict(false, None)
    ensures forall i :: 0 <= i < |vs| + 1 ==> ([v] + vs)[i] == Verdict(false, None)
  {
  }
}
