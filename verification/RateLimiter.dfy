/** The API rate limiter: per client, a count and the start of a fixed 60-second window.
    The clock is a parameter, in whole seconds. */
module RateLimiter {
  const WINDOW: nat := 60

  datatype Window = Window(count: nat, start: nat)

  type Limits = map<string, Window>

  datatype Request = Request(client: string, time: nat)

  function Entry(limits: Limits, r: Request): Window {
    if r.client in limits then limits[r.client] else Window(0, r.time)
  }

  /** The new entry, and whether the request is admitted. */
  function Decide(limit: nat, w: Window, time: nat): (Window, bool) {
    if time - w.start >= WINDOW then (Window(1, time), true)
    else if w.count < limit then (Window(w.count + 1, w.start), true)
    else (w, false)
  }

  class Limiter {
    var limits: Limits
    const maxPerMinute: nat

    constructor (maxPerMinute: nat)
      ensures this.maxPerMinute == maxPerMinute && limits == After(maxPerMinute, [])
    {
      this.maxPerMinute := maxPerMinute;
      limits := map[];
    }

    /** A clock that runs backwards makes the source panic on the subtraction. */
    method Check(client: string, now: nat) returns (ok: bool)
      requires client in limits ==> limits[client].start <= now
      modifies this
      ensures limits == Step(maxPerMinute, old(limits), Request(client, now))
      ensures ok == Admits(maxPerMinute, old(limits), Request(client, now))
    {
      if client !in limits {
        limits := limits[client := Window(0, now)];
      }
      var Window(count, start) := limits[client];
      if now - start >= WINDOW {
        limits := limits[client := Window(1, now)];
        ok := true;
      } else if count < maxPerMinute {
        limits := limits[client := Window(count + 1, start)];
        ok := true;
      } else {
        ok := false;
      }
    }
  }

  // ---- Runs ----

  function Step(limit: nat, limits: Limits, r: Request): Limits {
    limits[r.client := Decide(limit, Entry(limits, r), r.time).0]
  }

  predicate Admits(limit: nat, limits: Limits, r: Request) {
    Decide(limit, Entry(limits, r), r.time).1
  }

  function After(limit: nat, run: seq<Request>): Limits {
    if run == [] then map[] else Step(limit, After(limit, run[..|run| - 1]), run[|run| - 1])
  }

  /** Admissions of a client at times in the half-open interval. */
  function Admissions(limit: nat, run: seq<Request>, client: string, from: nat, to: nat): nat {
    if run == [] then 0
    else
      var init, r := run[..|run| - 1], run[|run| - 1];
      Admissions(limit, init, client, from, to) +
      if r.client == client && from <= r.time < to && Admits(limit, After(limit, init), r) then 1 else 0
  }

  /** Admissions of a client in the minute from `from` on. */
  function InMinute(limit: nat, run: seq<Request>, client: string, from: nat): nat {
    Admissions(limit, run, client, from, from + 60)
  }

  ghost predicate ClockRuns(run: seq<Request>) {
    forall i, j :: 0 <= i < j < |run| ==> run[i].time <= run[j].time
  }

  lemma {:induction false} NoneBefore(limit: nat, run: seq<Request>, client: string, from: nat, to: nat)
    requires forall i :: 0 <= i < |run| && run[i].client == client ==> run[i].time < from
    ensures Admissions(limit, run, client, from, to) == 0
  {
    if run != [] {
      NoneBefore(limit, run[..|run| - 1], client, from, to);
    }
  }

  /** How much of the budget for [from, from + 60) a client can have used, by the position
      of its current window. */
  ghost predicate Budget(limit: nat, limits: Limits, client: string, from: nat, used: nat) {
    if client !in limits then used == 0
    else
      var w := limits[client];
      && 1 <= w.count <= limit
      && (if w.start < from then used <= w.count - 1
          else if w.start < from + WINDOW then used <= limit - 1 + w.count
          else used <= 2 * limit - 1)
  }

  lemma {:induction false} BudgetKept(limit: nat, run: seq<Request>, client: string, from: nat)
    requires limit >= 1 && ClockRuns(run)
    ensures Budget(limit, After(limit, run), client, from, InMinute(limit, run, client, from))
    ensures client in After(limit, run) ==> run != [] && After(limit, run)[client].start <= run[|run| - 1].time
  {
    if run != [] {
      var init, r := run[..|run| - 1], run[|run| - 1];
      BudgetKept(limit, init, client, from);
      if r.client == client && r.time < from {
        NoneBefore(limit, init, client, from, from + WINDOW);
      }
    }
  }

  /** In any half-open minute a client is admitted at most 2 * limit - 1 times. */
  lemma AtMostNearlyTwice(limit: nat, run: seq<Request>, client: string, from: nat)
    requires limit >= 1 && ClockRuns(run)
    ensures InMinute(limit, run, client, from) <= 2 * limit - 1
  {
    BudgetKept(limit, run, client, from);
  }

  // ---- Refusals ----

  /** The current window covers the latest request of its client. */
  lemma {:induction false} WindowCoversRequests(limit: nat, run: seq<Request>, client: string)
    requires ClockRuns(run)
    ensures forall i :: 0 <= i < |run| && run[i].client == client ==>
      client in After(limit, run) && run[i].time < After(limit, run)[client].start + WINDOW
    ensures client in After(limit, run) ==> run != [] && After(limit, run)[client].start <= run[|run| - 1].time
  {
    if run != [] {
      WindowCoversRequests(limit, run[..|run| - 1], client);
    }
  }

  /** The stored count is the number of admissions since the stored start. */
  lemma {:induction false} CountIsAdmissions(limit: nat, run: seq<Request>, client: string, to: nat)
    requires limit >= 1 && ClockRuns(run) && client in After(limit, run)
    requires forall i :: 0 <= i < |run| ==> run[i].time < to
    ensures
      var w := After(limit, run)[client];
      w.count == Admissions(limit, run, client, w.start, to)
  {
    var init, r := run[..|run| - 1], run[|run| - 1];
    var before := After(limit, init);
    WindowCoversRequests(limit, init, client);
    if client in before {
      CountIsAdmissions(limit, init, client, to);
    }
    if r.client == client && (client !in before || r.time - before[client].start >= WINDOW) {
      NoneBefore(limit, init, client, r.time, to);
    }
  }

  /** A request is refused only inside a window that already holds exactly `limit` admissions. */
  lemma RefusedOnlyWhenFull(limit: nat, run: seq<Request>, r: Request)
    requires limit >= 1 && ClockRuns(run + [r]) && !Admits(limit, After(limit, run), r)
    ensures r.client in After(limit, run)
    ensures
      var start := After(limit, run)[r.client].start;
      start <= r.time < start + 60 && Admissions(limit, run, r.client, start, r.time + 1) == limit
  {
    assert forall i :: 0 <= i < |run| ==> run[i] == (run + [r])[i];
    assert (run + [r])[|run|] == r;
    BudgetKept(limit, run, r.client, 0);
    CountIsAdmissions(limit, run, r.client, r.time + 1);
  }

  /** And it is refused there: admission fails exactly in a full window. */
  lemma RefusedIffFull(limit: nat, run: seq<Request>, r: Request)
    requires limit >= 1 && ClockRuns(run + [r])
    ensures !Admits(limit, After(limit, run), r) <==>
      r.client in After(limit, run) &&
      var start := After(limit, run)[r.client].start;
      start <= r.time < start + 60 && Admissions(limit, run, r.client, start, r.time + 1) == limit
  {
    if !Admits(limit, After(limit, run), r) {
      RefusedOnlyWhenFull(limit, run, r);
    } else if r.client in After(limit, run) {
      assert forall i :: 0 <= i < |run| ==> run[i] == (run + [r])[i];
      assert (run + [r])[|run|] == r;
      CountIsAdmissions(limit, run, r.client, r.time + 1);
    }
  }

  // ---- The bound is tight, and needs a positive limit ----

  lemma OneMore(limit: nat, run: seq<Request>, r: Request, client: string, from: nat)
    ensures After(limit, run + [r]) == Step(limit, After(limit, run), r)
    ensures InMinute(limit, run + [r], client, from) == InMinute(limit, run, client, from) +
      if r.client == client && from <= r.time < from + WINDOW && Admits(limit, After(limit, run), r) then 1 else 0
  {
    assert (run + [r])[..|run|] == run;
  }

  function Burst(client: string, time: nat, n: nat): (b: seq<Request>)
    ensures |b| == n && forall i :: 0 <= i < n ==> b[i] == Request(client, time)
  {
    if n == 0 then [] else Burst(client, time, n - 1) + [Request(client, time)]
  }

  /** After the run, the client's entry is `w` and it was admitted `used` times in the minute. */
  predicate Stands(limit: nat, run: seq<Request>, client: string, from: nat, w: Window, used: nat) {
    client in After(limit, run) && After(limit, run)[client] == w && InMinute(limit, run, client, from) == used
  }

  lemma OneAdmitted(limit: nat, run: seq<Request>, client: string, time: nat, from: nat, w: Window, used: nat)
    requires Stands(limit, run, client, from, w, used)
    requires w.start <= time < w.start + WINDOW && w.count < limit && from <= time < from + WINDOW
    ensures Stands(limit, run + [Request(client, time)], client, from, Window(w.count + 1, w.start), used + 1)
  {
    OneMore(limit, run, Request(client, time), client, from);
  }

  lemma OneReset(limit: nat, run: seq<Request>, client: string, time: nat, from: nat, w: Window, used: nat)
    requires Stands(limit, run, client, from, w, used)
    requires w.start + WINDOW <= time && from <= time < from + WINDOW
    ensures Stands(limit, run + [Request(client, time)], client, from, Window(1, time), used + 1)
  {
    OneMore(limit, run, Request(client, time), client, from);
  }

  /** Requests that still fit the window are admitted one and all. */
  lemma {:induction false} BurstAdmitted(
    limit: nat, run: seq<Request>, client: string, time: nat, n: nat, from: nat, w: Window, used: nat)
    requires Stands(limit, run, client, from, w, used)
    requires w.start <= time < w.start + WINDOW && w.count + n <= limit && from <= time < from + WINDOW
    ensures Stands(limit, run + Burst(client, time, n), client, from, Window(w.count + n, w.start), used + n)
  {
    if n == 0 {
      assert run + Burst(client, time, 0) == run;
    } else {
      BurstAdmitted(limit, run, client, time, n - 1, from, w, used);
      var shorter := run + Burst(client, time, n - 1);
      OneAdmitted(limit, shorter, client, time, from, Window(w.count + n - 1, w.start), used + n - 1);
      assert run + Burst(client, time, n) == shorter + [Request(client, time)];
    }
  }

  ghost predicate RunsUpTo(run: seq<Request>, time: nat) {
    ClockRuns(run) && forall i :: 0 <= i < |run| ==> run[i].time <= time
  }

  lemma BurstRunsUpTo(run: seq<Request>, client: string, was: nat, time: nat, n: nat)
    requires RunsUpTo(run, was) && was <= time
    ensures RunsUpTo(run + Burst(client, time, n), time)
  {
  }

  lemma FirstRequest(limit: nat, client: string) returns (run: seq<Request>)
    requires limit >= 1
    ensures RunsUpTo(run, 0) && Stands(limit, run, client, 59, Window(1, 0), 0)
  {
    run := [Request(client, 0)];
    OneMore(limit, [], run[0], client, 59);
    assert [] + [run[0]] == run;
  }

  /** A request at second 0 and limit - 1 at second 59 fill the first window. */
  lemma FillFirstWindow(limit: nat, client: string) returns (run: seq<Request>)
    requires limit >= 1
    ensures RunsUpTo(run, 59) && Stands(limit, run, client, 59, Window(limit, 0), limit - 1)
  {
    var first := FirstRequest(limit, client);
    BurstAdmitted(limit, first, client, 59, limit - 1, 59, Window(1, 0), 0);
    BurstRunsUpTo(first, client, 0, 59, limit - 1);
    run := first + Burst(client, 59, limit - 1);
  }

  /** For every positive limit some run of one client reaches the bound: fill the first
      window at second 59, then send another `limit` requests at second 60. */
  lemma BoundIsReached(limit: nat, client: string) returns (run: seq<Request>)
    requires limit >= 1
    ensures ClockRuns(run) && InMinute(limit, run, client, 59) == 2 * limit - 1
  {
    var filled := FillFirstWindow(limit, client);
    OneReset(limit, filled, client, 60, 59, Window(limit, 0), limit - 1);
    var next := filled + [Request(client, 60)];
    BurstAdmitted(limit, next, client, 60, limit - 1, 59, Window(1, 60), limit);
    BurstRunsUpTo(next, client, 60, 60, limit - 1);
    run := next + Burst(client, 60, limit - 1);
  }

  lemma ZeroLimitAdmits(client: string) returns (run: seq<Request>)
    ensures ClockRuns(run) && InMinute(0, run, client, 60) == 1
  {
    OneMore(0, [], Request(client, 0), client, 60);
    var first := [] + [Request(client, 0)];
    OneMore(0, first, Request(client, 60), client, 60);
    run := first + [Request(client, 60)];
  }

  /** A limit of zero still admits a request after a quiet minute, so that even twice the
      limit is a bound on all runs exactly for positive limits. */
  lemma TwiceIsBoundIff(limit: nat)
    ensures limit >= 1 <==>
      forall run, client, from: nat :: ClockRuns(run) ==> InMinute(limit, run, client, from) <= 2 * limit
  {
    if limit >= 1 {
      forall run, client, from: nat | ClockRuns(run)
        ensures InMinute(limit, run, client, from) <= 2 * limit
      {
        AtMostNearlyTwice(limit, run, client, from);
      }
    } else {
      var run := ZeroLimitAdmits("");
    }
  }
}
