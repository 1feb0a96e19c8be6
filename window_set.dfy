/**
 * The window set kept by `MovingAvg`: an ordered sequence of windows of samples. One push
 * (`MovingAvg::updateWindows`) either starts the first window, appends to a window that is
 * not yet full, or, when the last window holds exactly `windowSize` samples, starts a new
 * window seeded with that window's last `windowStride` samples; afterwards the oldest
 * window is dropped when there are more than `maxNumWindows`.
 *
 * The functions here are generic in the sample type; the plugin's samples are the
 * three-channel frame averages.
 */
module WindowSet {

  function Last<T>(ws: seq<seq<T>>): seq<T>
    requires ws != []
  {
    ws[|ws| - 1]
  }

  /**
   * What `updateWindows` needs of its state: when the last window is full, the iterator
   * range `last.end() - windowStride .. last.end()` must lie inside that window.
   */
  predicate CanPush<T>(ws: seq<seq<T>>, size: int, stride: int)
  {
    ws != [] && |Last(ws)| == size ==> 0 <= stride <= |Last(ws)|
  }

  /** The window set after the sample is added and before the eviction step. */
  function Grow<T>(ws: seq<seq<T>>, s: T, size: int, stride: int): seq<seq<T>>
    requires ws != [] && CanPush(ws, size, stride)
  {
    var last := Last(ws);
    if |last| == size then ws + [last[|last| - stride..] + [s]]
    else ws[..|ws| - 1] + [last + [s]]
  }

  /** The eviction step: drop the front window when the count passes the cap. */
  function Evict<T>(ws: seq<seq<T>>, max: int): seq<seq<T>>
    requires ws != []
  {
    if |ws| > max then ws[1..] else ws
  }

  /** One call of `updateWindows`; the first window is created without the eviction step. */
  function Step<T>(ws: seq<seq<T>>, s: T, size: int, stride: int, max: int): seq<seq<T>>
    requires CanPush(ws, size, stride)
  {
    if ws == [] then [[s]] else Evict(Grow(ws, s, size, stride), max)
  }

  /** Window parameters under which the window set keeps its shape. */
  predicate ValidConfig(size: int, stride: int, max: int)
  {
    0 <= stride < size && max >= 1
  }

  /**
   * The shape the window set keeps: every window but the last is full, the last holds
   * between 1 and `size` samples, every window after the first is longer than the stride,
   * and each window after the first starts with the last `stride` samples of the one
   * before it.
   */
  ghost predicate WellFormed<T>(ws: seq<seq<T>>, size: nat, stride: nat)
  {
    && (forall k :: 0 <= k < |ws| - 1 ==> |ws[k]| == size)
    && (ws != [] ==> 1 <= |Last(ws)| <= size)
    && (forall k :: 1 <= k < |ws| ==> stride < |ws[k]|)
    && (forall k :: 1 <= k < |ws| ==> Overlap(ws, k, stride))
  }

  /** Window k starts with the last `stride` samples of window k - 1. */
  ghost predicate Overlap<T>(ws: seq<seq<T>>, k: nat, stride: nat)
    requires 1 <= k < |ws|
  {
    stride <= |ws[k - 1]| && stride <= |ws[k]| && ws[k][..stride] == ws[k - 1][|ws[k - 1]| - stride..]
  }

  /** Every window after the first is at least `stride` samples long. */
  ghost predicate Seeded<T>(ws: seq<seq<T>>, stride: nat)
  {
    forall k :: 1 <= k < |ws| ==> stride <= |ws[k]|
  }

  /**
   * The sample stream the windows cover: the first window, then each later window
   * without the `stride` samples it shares with the window before it.
   */
  ghost function Stream<T>(ws: seq<seq<T>>, stride: nat): seq<T>
    requires Seeded(ws, stride)
  {
    if ws == [] then []
    else if |ws| == 1 then ws[0]
    else Stream(ws[..|ws| - 1], stride) + Last(ws)[stride..]
  }

  ghost predicate IsSuffix<T>(a: seq<T>, b: seq<T>)
  {
    |a| <= |b| && b[|b| - |a|..] == a
  }

  /** On an empty window set a push leaves exactly one window holding just the sample. */
  lemma StepStartsFirstWindow<T>(s: T, size: int, stride: int, max: int)
    ensures Step([], s, size, stride, max) == [[s]]
  {
  }

  /**
   * A push onto a window that is not full appends the sample to it. The other windows
   * are untouched and keep their order; the only other change is that the front window
   * is dropped when the count is over the cap (`d` windows are dropped).
   */
  lemma StepAppendsToPartial<T>(ws: seq<seq<T>>, s: T, size: int, stride: int, max: int)
    requires ws != [] && |Last(ws)| != size
    ensures var r, d := Step(ws, s, size, stride, max), if |ws| > max then 1 else 0;
      && |r| == |ws| - d
      && (forall k :: d <= k < |ws| - 1 ==> r[k - d] == ws[k])
      && (r != [] ==> Last(r) == Last(ws) + [s])
  {
  }

  /**
   * A push onto a full window keeps that window intact and appends a new window made
   * of its last `stride` samples followed by the sample; the front window is dropped
   * when the count is then over the cap (`d` windows are dropped).
   */
  lemma StepRollsOver<T>(ws: seq<seq<T>>, s: T, size: int, stride: int, max: int)
    requires ws != [] && |Last(ws)| == size && 0 <= stride <= size
    ensures var r, d := Step(ws, s, size, stride, max), if |ws| + 1 > max then 1 else 0;
      && |r| == |ws| + 1 - d
      && (forall k :: d <= k < |ws| ==> r[k - d] == ws[k])
      && Last(r) == Last(ws)[size - stride..] + [s]
  {
  }

  /** With a cap of at least one window, the count never exceeds the cap once it holds. */
  lemma StepWithinCap<T>(ws: seq<seq<T>>, s: T, size: int, stride: int, max: int)
    requires CanPush(ws, size, stride)
    requires max >= 1 && |ws| <= max
    ensures 1 <= |Step(ws, s, size, stride, max)| <= max
  {
  }

  /**
   * A push leaves at least one window unless it appends to the only window while the cap
   * is below one, in which case the eviction step removes that window.
   */
  predicate KeepsAWindow<T>(ws: seq<seq<T>>, size: int, max: int)
  {
    max >= 1 || ws == [] || |ws| >= 2 || |Last(ws)| == size
  }

  lemma StepNonEmptyIff<T>(ws: seq<seq<T>>, s: T, size: int, stride: int, max: int)
    requires CanPush(ws, size, stride)
    ensures Step(ws, s, size, stride, max) != [] <==> KeepsAWindow(ws, size, max)
  {
  }

  /** The newest sample is always the final sample of the last window. */
  lemma StepNewestIsLast<T>(ws: seq<seq<T>>, s: T, size: int, stride: int, max: int)
    requires CanPush(ws, size, stride)
    ensures var r := Step(ws, s, size, stride, max);
      r != [] ==> Last(r) != [] && Last(r)[|Last(r)| - 1] == s
  {
  }

  lemma GrowPreservesWellFormed<T>(ws: seq<seq<T>>, s: T, size: int, stride: int)
    requires 0 <= stride < size && ws != []
    requires WellFormed(ws, size, stride)
    ensures WellFormed(Grow(ws, s, size, stride), size, stride)
  {
    var g, n := Grow(ws, s, size, stride), |ws|;
    var last := Last(ws);
    if |last| == size {
      var w := last[size - stride..] + [s];
      assert g == ws + [w];
      forall k | 1 <= k < |g| ensures Overlap(g, k, stride) {
        if k < n {
          assert g[k] == ws[k] && g[k - 1] == ws[k - 1];
          assert Overlap(ws, k, stride);
        } else {
          assert g[k] == w && g[k - 1] == last;
          assert w[..stride] == last[|last| - stride..];
        }
      }
    } else {
      assert g == ws[..n - 1] + [last + [s]];
      forall k | 1 <= k < |g| ensures Overlap(g, k, stride) {
        assert g[k - 1] == ws[k - 1];
        assert Overlap(ws, k, stride);
        if k == n - 1 {
          assert (last + [s])[..stride] == last[..stride];
        } else {
          assert g[k] == ws[k];
        }
      }
    }
  }

  /** Dropping the front window keeps the shape. */
  lemma DropFrontPreservesWellFormed<T>(ws: seq<seq<T>>, size: nat, stride: nat)
    requires ws != [] && WellFormed(ws, size, stride)
    ensures WellFormed(ws[1..], size, stride)
  {
    var t := ws[1..];
    forall k | 1 <= k < |t|
      ensures Overlap(t, k, stride)
    {
      assert t[k] == ws[k + 1] && t[k - 1] == ws[k];
      assert Overlap(ws, k + 1, stride);
    }
  }

  /** With `0 <= stride < size`, a push keeps the window set well formed. */
  lemma StepPreservesWellFormed<T>(ws: seq<seq<T>>, s: T, size: int, stride: int, max: int)
    requires 0 <= stride < size
    requires WellFormed(ws, size, stride)
    ensures WellFormed(Step(ws, s, size, stride, max), size, stride)
  {
    if ws != [] {
      var g := Grow(ws, s, size, stride);
      GrowPreservesWellFormed(ws, s, size, stride);
      if |g| > max {
        DropFrontPreservesWellFormed(g, size, stride);
      }
    }
  }

  /**
   * Dropping the front window of a set of overlapping windows removes from the stream
   * exactly the part of that window that the next window does not repeat.
   */
  lemma {:induction false} StreamDropFront<T>(ws: seq<seq<T>>, stride: nat)
    requires |ws| >= 2 && Seeded(ws, stride)
    requires Overlap(ws, 1, stride)
    ensures Seeded(ws[1..], stride)
    ensures Stream(ws, stride) == ws[0][..|ws[0]| - stride] + Stream(ws[1..], stride)
  {
    var n, w0 := |ws|, ws[0];
    var p := w0[..|w0| - stride];
    assert Seeded(ws[1..], stride) by {
      forall k | 1 <= k < n - 1 ensures stride <= |ws[1..][k]| {
        assert ws[1..][k] == ws[k + 1];
      }
    }
    if n == 2 {
      assert w0 == p + ws[1][..stride];
      assert ws[1] == ws[1][..stride] + ws[1][stride..];
      assert Stream(ws[1..], stride) == ws[1];
    } else {
      var front := ws[..n - 1];
      assert front[0] == w0 && front[1] == ws[1];
      assert Overlap(front, 1, stride);
      StreamDropFront(front, stride);
      assert front[1..] == ws[1..][..n - 2];
      assert Last(ws[1..]) == Last(ws);
    }
  }

  /**
   * The samples removed from the front of the stream by a push: the front window's
   * samples that the next window does not repeat, when the push evicts; otherwise none.
   */
  ghost function Dropped<T>(ws: seq<seq<T>>, size: int, stride: int, max: int): seq<T>
    requires 0 <= stride < size
  {
    if ws != [] && |Last(ws)| == size && |ws| + 1 > max && |ws[0]| >= size - stride
    then ws[0][..size - stride] else []
  }

  /**
   * A push extends the stream by exactly the new sample, and an eviction removes only
   * the oldest `size - stride` samples from its front: no sample is lost from the middle,
   * repeated or reordered.
   */
  lemma {:induction false} StepStream<T>(ws: seq<seq<T>>, s: T, size: int, stride: int, max: int)
    requires ValidConfig(size, stride, max)
    requires WellFormed(ws, size, stride) && |ws| <= max
    ensures var r := Step(ws, s, size, stride, max);
      && Seeded(r, stride)
      && Stream(ws, stride) + [s] == Dropped(ws, size, stride, max) + Stream(r, stride)
      && |Dropped(ws, size, stride, max)| in {0, size - stride}
  {
    StepPreservesWellFormed(ws, s, size, stride, max);
    if ws == [] {
      assert Step(ws, s, size, stride, max) == [[s]];
    } else if |Last(ws)| == size {
      StepStreamRoll(ws, s, size, stride, max);
    } else {
      StepStreamAppend(ws, s, size, stride, max);
    }
  }

  lemma StepStreamRoll<T>(ws: seq<seq<T>>, s: T, size: int, stride: int, max: int)
    requires ValidConfig(size, stride, max)
    requires WellFormed(ws, size, stride) && |ws| <= max
    requires ws != [] && |Last(ws)| == size
    ensures Seeded(Step(ws, s, size, stride, max), stride)
    ensures Stream(ws, stride) + [s] == Dropped(ws, size, stride, max) + Stream(Step(ws, s, size, stride, max), stride)
  {
    var n, last := |ws|, Last(ws);
    var g := Grow(ws, s, size, stride);
    GrowPreservesWellFormed(ws, s, size, stride);
    var w := last[size - stride..] + [s];
    assert g == ws + [w];
    assert g[..n] == ws && Last(g) == w;
    assert w[stride..] == [s];
    assert Stream(g, stride) == Stream(ws, stride) + [s];
    if n + 1 > max {
      assert Step(ws, s, size, stride, max) == g[1..];
      assert |g[0]| == size;
      assert Overlap(g, 1, stride);
      StreamDropFront(g, stride);
      assert g[0] == ws[0];
    } else {
      assert Step(ws, s, size, stride, max) == g;
    }
  }

  lemma StepStreamAppend<T>(ws: seq<seq<T>>, s: T, size: int, stride: int, max: int)
    requires ValidConfig(size, stride, max)
    requires WellFormed(ws, size, stride) && |ws| <= max
    requires ws != [] && |Last(ws)| != size
    ensures Seeded(Step(ws, s, size, stride, max), stride)
    ensures Stream(ws, stride) + [s] == Stream(Step(ws, s, size, stride, max), stride)
  {
    var n, last := |ws|, Last(ws);
    var g := Grow(ws, s, size, stride);
    GrowPreservesWellFormed(ws, s, size, stride);
    assert Step(ws, s, size, stride, max) == g;
    assert g == ws[..n - 1] + [last + [s]];
    if n > 1 {
      assert g[..n - 1] == ws[..n - 1];
      assert (last + [s])[stride..] == last[stride..] + [s];
    }
  }

  /** The window set after pushing the samples `xs`, one by one, onto an empty set. */
  ghost function PushAll<T>(xs: seq<T>, size: int, stride: int, max: int): seq<seq<T>>
    requires ValidConfig(size, stride, max)
  {
    if xs == [] then []
    else Step(PushAll(xs[..|xs| - 1], size, stride, max), xs[|xs| - 1], size, stride, max)
  }

  /**
   * After any run of pushes from an empty set the set is well formed and holds at most
   * `max` windows; after a non-empty run it holds at least one window, and the newest
   * sample is the last sample of the last window.
   */
  lemma {:induction false} PushAllShape<T>(xs: seq<T>, size: int, stride: int, max: int)
    requires ValidConfig(size, stride, max)
    ensures var r := PushAll(xs, size, stride, max);
      && WellFormed(r, size, stride)
      && |r| <= max
      && (xs == [] <==> r == [])
      && (xs != [] ==> Last(r) != [] && Last(r)[|Last(r)| - 1] == xs[|xs| - 1])
  {
    if xs != [] {
      var n := |xs|;
      var ws := PushAll(xs[..n - 1], size, stride, max);
      var s := xs[n - 1];
      PushAllShape(xs[..n - 1], size, stride, max);
      assert PushAll(xs, size, stride, max) == Step(ws, s, size, stride, max);
      StepPreservesWellFormed(ws, s, size, stride, max);
      StepWithinCap(ws, s, size, stride, max);
      StepNewestIsLast(ws, s, size, stride, max);
    }
  }

  /**
   * After any run of pushes from an empty set, the stream the windows cover is the most
   * recent part of the pushed samples, in order.
   */
  lemma {:induction false} PushAllStream<T>(xs: seq<T>, size: int, stride: int, max: int)
    requires ValidConfig(size, stride, max)
    ensures Seeded(PushAll(xs, size, stride, max), stride)
    ensures IsSuffix(Stream(PushAll(xs, size, stride, max), stride), xs)
  {
    if xs != [] {
      var n := |xs|;
      var prev := xs[..n - 1];
      var ws := PushAll(prev, size, stride, max);
      var s := xs[n - 1];
      assert PushAll(xs, size, stride, max) == Step(ws, s, size, stride, max);
      assert xs == prev + [s];
      assert Seeded(Step(ws, s, size, stride, max), stride)
          && IsSuffix(Stream(Step(ws, s, size, stride, max), stride), prev + [s]) by {
        PushAllStream(prev, size, stride, max);
        PushAllShape(prev, size, stride, max);
        StepKeepsStreamSuffix(ws, s, size, stride, max, prev);
      }
    }
  }

  /** A push keeps the stream a suffix of the samples pushed so far, the new one included. */
  lemma StepKeepsStreamSuffix<T>(ws: seq<seq<T>>, s: T, size: int, stride: int, max: int, prev: seq<T>)
    requires ValidConfig(size, stride, max)
    requires WellFormed(ws, size, stride) && |ws| <= max
    requires Seeded(ws, stride) && IsSuffix(Stream(ws, stride), prev)
    ensures Seeded(Step(ws, s, size, stride, max), stride)
    ensures IsSuffix(Stream(Step(ws, s, size, stride, max), stride), prev + [s])
  {
    StepStream(ws, s, size, stride, max);
    SuffixAfterPush(Stream(ws, stride), s, Dropped(ws, size, stride, max),
                    Stream(Step(ws, s, size, stride, max), stride), prev);
  }

  lemma SuffixAfterPush<T>(st: seq<T>, s: T, dr: seq<T>, st': seq<T>, xs: seq<T>)
    requires IsSuffix(st, xs)
    requires st + [s] == dr + st'
    ensures IsSuffix(st', xs + [s])
  {
    var ys := xs + [s];
    assert ys[|ys| - |st| - 1..] == st + [s];
    assert ys[|ys| - |st'|..] == (st + [s])[|dr|..];
  }

  lemma {:induction false} PushAllFillsFirstWindow<T>(xs: seq<T>, size: int, stride: int, max: int)
    requires ValidConfig(size, stride, max)
    requires 1 <= |xs| <= size
    ensures PushAll(xs, size, stride, max) == [xs]
  {
    var n := |xs|;
    if n == 1 {
      assert xs[..0] == [];
      assert PushAll(xs[..0], size, stride, max) == [];
      assert PushAll(xs, size, stride, max) == Step([], xs[0], size, stride, max);
      assert xs == [xs[0]];
    } else {
      PushAllFillsFirstWindow(xs[..n - 1], size, stride, max);
      assert xs[..n - 1] + [xs[n - 1]] == xs;
      assert PushAll(xs, size, stride, max) == Step([xs[..n - 1]], xs[n - 1], size, stride, max);
    }
  }

  /**
   * The first roll-over: after `size + 1` pushes from an empty set (with room for two
   * windows) there are two windows, the full first window and a second one that starts
   * with the first window's last `stride` samples.
   */
  lemma FirstRollover<T>(xs: seq<T>, size: int, stride: int, max: int)
    requires ValidConfig(size, stride, max) && max >= 2
    requires |xs| == size + 1
    ensures PushAll(xs, size, stride, max) == [xs[..size], xs[size - stride..]]
  {
    var first, s := xs[..size], xs[size];
    var second := first[size - stride..] + [s];
    calc {
      PushAll(xs, size, stride, max);
      Step(PushAll(first, size, stride, max), s, size, stride, max);
      { PushAllFillsFirstWindow(first, size, stride, max); }
      Step([first], s, size, stride, max);
      { assert Grow([first], s, size, stride) == [first, second]; }
      [first, second];
      { assert second == xs[size - stride..]; }
      [xs[..size], xs[size - stride..]];
    }
  }
}
