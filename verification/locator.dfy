/**
 The backward probe schedule of `ZipInspector.locate_central_directory`.

 The HTTP range fetch and the `ZipFile` constructor are outside the model:
 they become two oracles, `fetch` (the bytes the attempt's request returned,
 or `None` when fetching raised) and `isArchive` (whether `ZipFile` accepts
 those bytes). Each attempt sends a fresh request, so `fetch` is indexed by
 the attempt as well as the window: a retry of the same window may get a
 different answer. Every failure of either is swallowed by the loop, so
 only the pair's verdict per attempt matters.
 */
module Locator {
  import opened Wrappers

  newtype byte = x: int | 0 <= x < 256

  type Bytes = seq<byte>

  /** An inclusive byte range `start-end`, as written into the `Range` header. */
  datatype Window = Window(start: int, end: int)

  /** Default growth of the window per attempt: 1 MiB. */
  const DefaultStep: int := 1048576

  /** Default number of attempts before giving up. */
  const DefaultMaxAttempts: int := 20

  function Max(x: int, y: int): int
  {
    if x >= y then x else y
  }

  /**
   The window requested on the 0-based attempt `a`: it always ends at the
   object's last byte and reaches `step * (a + 1)` bytes back, clamped at
   the start of the object.
   */
  function ProbeWindow(contentLength: int, step: int, a: nat): (w: Window)
    ensures w.end == contentLength - 1
    ensures w.start >= 0
    ensures contentLength <= step * (a + 1) ==> w.start == 0
    ensures w.start > 0 ==> contentLength - w.start == step * (a + 1)
    ensures contentLength > step * (a + 1) ==> w.start == contentLength - step * (a + 1)
  {
    Window(Max(contentLength - step * (a + 1), 0), contentLength - 1)
  }

  /** The windows of the first `n` attempts, in the order they are requested. */
  function Schedule(contentLength: int, step: int, n: nat): (ws: seq<Window>)
    ensures |ws| == n
    ensures forall a :: 0 <= a < n ==> ws[a] == ProbeWindow(contentLength, step, a)
  {
    seq(n, a requires 0 <= a => ProbeWindow(contentLength, step, a))
  }

  /** With a non-negative step the start never moves forward as attempts go on. */
  lemma ProbeMonotone(contentLength: int, step: int, a: nat, b: nat)
    requires step >= 0
    requires a <= b
    ensures ProbeWindow(contentLength, step, b).start <= ProbeWindow(contentLength, step, a).start
  {
    assert step * (a + 1) <= step * (b + 1);
  }

  /**
   A region of the last `tail` bytes lies inside the window of attempt `a`
   as soon as `tail <= step * (a + 1)`; in particular an object no longer
   than `step` is fetched whole on the first attempt.
   */
  lemma ProbeCovers(contentLength: int, step: int, a: nat, tail: int)
    requires 0 <= tail <= step * (a + 1)
    ensures ProbeWindow(contentLength, step, a).start <= Max(contentLength - tail, 0)
  {
  }

  /** The response to attempt `a`'s request for window `w`: bytes, or `None` when the fetch raised. */
  type Fetcher = (nat, Window) -> Option<Bytes>

  /** Attempt `a` at window `w` succeeds: the fetch returned bytes and `ZipFile` accepted them. */
  predicate Accepts(fetch: Fetcher, isArchive: Bytes -> bool, a: nat, w: Window)
  {
    fetch(a, w).Some? && isArchive(fetch(a, w).value)
  }

  /** How a sweep of attempts ends, with the number of fetches it made. */
  datatype Sweep = Found(fetches: nat, bytes: Bytes) | Exhausted(fetches: nat)

  /**
   Reference definition of the sweep from attempt `a` on: the first accepted
   window wins, and running out of attempts ends it.
   */
  function SweepFrom(contentLength: int, step: int, maxAttempts: int,
                     fetch: Fetcher, isArchive: Bytes -> bool, a: nat): Sweep
    decreases maxAttempts - a
  {
    if a >= maxAttempts then Exhausted(a)
    else if Accepts(fetch, isArchive, a, ProbeWindow(contentLength, step, a))
    then Found(a + 1, fetch(a, ProbeWindow(contentLength, step, a)).value)
    else SweepFrom(contentLength, step, maxAttempts, fetch, isArchive, a + 1)
  }

  /**
   The retry loop. `requested` is the sequence of windows fetched. The loop
   requests the schedule's windows in order, stops at the first accepted one
   and returns its bytes; when none of the `maxAttempts` windows is accepted
   it reports failure (`None`, the source's "Failed to locate central
   directory" exception) after requesting every one of them.
   */
  method Locate(contentLength: int, step: int, maxAttempts: int,
                fetch: Fetcher, isArchive: Bytes -> bool)
    returns (r: Option<Bytes>, requested: seq<Window>)
    ensures |requested| <= Max(maxAttempts, 0)
    ensures requested == Schedule(contentLength, step, |requested|)
    ensures forall a :: 0 <= a < |requested| - 1 ==> !Accepts(fetch, isArchive, a, requested[a])
    ensures r.Some? <==> |requested| > 0 && Accepts(fetch, isArchive, |requested| - 1, requested[|requested| - 1])
    ensures r.Some? ==> fetch(|requested| - 1, requested[|requested| - 1]) == Some(r.value)
    ensures r.None? ==> |requested| == Max(maxAttempts, 0)
    ensures SweepFrom(contentLength, step, maxAttempts, fetch, isArchive, 0)
            == if r.Some? then Found(|requested|, r.value) else Exhausted(|requested|)
  {
    requested := [];
    var a := 0;
    while a < maxAttempts
      invariant 0 <= a <= Max(maxAttempts, 0)
      invariant requested == Schedule(contentLength, step, a)
      invariant forall i :: 0 <= i < a ==> !Accepts(fetch, isArchive, i, requested[i])
      invariant SweepFrom(contentLength, step, maxAttempts, fetch, isArchive, 0)
                == SweepFrom(contentLength, step, maxAttempts, fetch, isArchive, a)
    {
      var w := ProbeWindow(contentLength, step, a);
      requested := requested + [w];
      var got := fetch(a, w);
      if got.Some? && isArchive(got.value) {
        return Some(got.value), requested;
      }
      a := a + 1;
    }
    r := None;
  }

  /**
   First success wins: when attempt `k` (0-based, below `maxAttempts`) is the
   first accepted one, the sweep makes exactly `k + 1` fetches and returns
   the bytes of window `k`.
   */
  lemma {:induction false} FirstSuccessWins(contentLength: int, step: int, maxAttempts: int,
                                            fetch: Fetcher, isArchive: Bytes -> bool,
                                            k: nat, from: nat)
    requires from <= k < maxAttempts
    requires Accepts(fetch, isArchive, k, ProbeWindow(contentLength, step, k))
    requires forall a :: from <= a < k ==> !Accepts(fetch, isArchive, a, ProbeWindow(contentLength, step, a))
    ensures SweepFrom(contentLength, step, maxAttempts, fetch, isArchive, from)
            == Found(k + 1, fetch(k, ProbeWindow(contentLength, step, k)).value)
    decreases k - from
  {
    if from < k {
      FirstSuccessWins(contentLength, step, maxAttempts, fetch, isArchive, k, from + 1);
    }
  }

  /**
   When no window below `maxAttempts` is accepted, the sweep gives up after
   exactly `maxAttempts` fetches (none when `maxAttempts` is not positive).
   */
  lemma {:induction false} AllAttemptsFail(contentLength: int, step: int, maxAttempts: int,
                                           fetch: Fetcher, isArchive: Bytes -> bool,
                                           from: nat)
    requires forall a :: from <= a < maxAttempts ==> !Accepts(fetch, isArchive, a, ProbeWindow(contentLength, step, a))
    ensures SweepFrom(contentLength, step, maxAttempts, fetch, isArchive, from)
            == Exhausted(Max(maxAttempts, from))
    decreases maxAttempts - from
  {
    if from < maxAttempts {
      AllAttemptsFail(contentLength, step, maxAttempts, fetch, isArchive, from + 1);
    }
  }

  /**
   A retry of the same window can succeed: for an object no longer than the
   step every attempt requests the whole object, and a request that raised
   on the first attempt may be answered on the second.
   */
  lemma TransientFailureRetried(contentLength: int, bytes: Bytes)
    requires 0 < contentLength <= DefaultStep
    ensures ProbeWindow(contentLength, DefaultStep, 1) == ProbeWindow(contentLength, DefaultStep, 0)
    ensures var fetch: Fetcher := (a: nat, w: Window) => if a == 0 then None else Some(bytes);
      SweepFrom(contentLength, DefaultStep, DefaultMaxAttempts, fetch, b => true, 0) == Found(2, bytes)
  {
    var fetch: Fetcher := (a: nat, w: Window) => if a == 0 then None else Some(bytes);
    FirstSuccessWins(contentLength, DefaultStep, DefaultMaxAttempts, fetch, b => true, 1, 0);
  }
}
