/**
 The proxy's sliding-window limiter: a list of admitted times for each address, rewritten on
 every request.
 */
module RateLimit {

  const RATE_WINDOW_MS := 60_000
  const RATE_MAX_REQS := 1200

  type Buckets = map<string, seq<int>>

  datatype Request = Request(ip: string, now: int)

  function Bucket(b: Buckets, ip: string): seq<int> {
    if ip in b then b[ip] else []
  }

  /** The times less than a window ago. */
  function Fresh(times: seq<int>, now: int): seq<int> {
    if times == [] then []
    else Fresh(times[..|times| - 1], now)
         + if now - times[|times| - 1] < RATE_WINDOW_MS then [times[|times| - 1]] else []
  }

  predicate Admits(b: Buckets, r: Request) {
    |Fresh(Bucket(b, r.ip), r.now)| < RATE_MAX_REQS
  }

  function Rewritten(b: Buckets, r: Request): Buckets {
    var recent := Fresh(Bucket(b, r.ip), r.now);
    b[r.ip := if Admits(b, r) then recent + [r.now] else recent]
  }

  class Limiter {
    var ipBuckets: Buckets

    constructor ()
      ensures ipBuckets == map[]
    {
      ipBuckets := map[];
    }

    method RateLimit(ip: string, now: int) returns (ok: bool)
      modifies this
      ensures ok == Admits(old(ipBuckets), Request(ip, now))
      ensures ipBuckets == Rewritten(old(ipBuckets), Request(ip, now))
    {
      var arr := Bucket(ipBuckets, ip);
      var recent: seq<int> := [];
      for i := 0 to |arr|
        invariant recent == Fresh(arr[..i], now)
      {
        assert arr[..i + 1][..i] == arr[..i];
        if now - arr[i] < RATE_WINDOW_MS {
          recent := recent + [arr[i]];
        }
      }
      assert arr[..|arr|] == arr;
      if |recent| >= RATE_MAX_REQS {
        ipBuckets := ipBuckets[ip := recent];
        return false;
      }
      recent := recent + [now];
      ipBuckets := ipBuckets[ip := recent];
      return true;
    }
  }

  // ------------------------------------------------------------------ runs

  ghost function After(run: seq<Request>): Buckets {
    if run == [] then map[] else Rewritten(After(run[..|run| - 1]), run[|run| - 1])
  }

  /** The times at which `ip` was admitted, in the order of the run. */
  ghost function Granted(run: seq<Request>, ip: string): seq<int> {
    if run == [] then []
    else
      var init, last := run[..|run| - 1], run[|run| - 1];
      Granted(init, ip) + if last.ip == ip && Admits(After(init), last) then [last.now] else []
  }

  ghost predicate Monotone(run: seq<Request>) {
    forall i, j :: 0 <= i <= j < |run| ==> run[i].now <= run[j].now
  }

  /** Nothing in the run is later than `now`. */
  ghost predicate NotAfter(run: seq<Request>, now: int) {
    forall i :: 0 <= i < |run| ==> run[i].now <= now
  }

  /** How many of the times lie in [from, to). */
  ghost function CountIn(times: seq<int>, from: int, to: int): nat {
    if times == [] then 0
    else CountIn(times[..|times| - 1], from, to) + if from <= times[|times| - 1] < to then 1 else 0
  }

  // ------------------------------------------------------------------ what the lists forget

  /** Dropping stale times earlier loses nothing later. */
  lemma {:induction false} FreshTwice(times: seq<int>, now: int, later: int)
    requires now <= later
    ensures Fresh(Fresh(times, now), later) == Fresh(times, later)
  {
    if times != [] {
      var init, last := times[..|times| - 1], times[|times| - 1];
      FreshTwice(init, now, later);
      if now - last < RATE_WINDOW_MS {
        FreshSnoc(Fresh(init, now), last, later);
      } else {
        assert Fresh(times, now) == Fresh(init, now) && Fresh(times, later) == Fresh(init, later);
      }
    }
  }

  lemma FreshSnoc(times: seq<int>, t: int, now: int)
    ensures Fresh(times + [t], now) == Fresh(times, now) + if now - t < RATE_WINDOW_MS then [t] else []
  {
    assert (times + [t])[..|times|] == times;
  }

  /** At any later moment the kept list has the same fresh times as the full record of grants. */
  lemma {:induction false} BucketIsRecent(run: seq<Request>, ip: string, now: int)
    requires Monotone(run) && NotAfter(run, now)
    ensures Fresh(Bucket(After(run), ip), now) == Fresh(Granted(run, ip), now)
  {
    if run != [] {
      var init, last := run[..|run| - 1], run[|run| - 1];
      InitOrdered(run);
      assert NotAfter(init, now);
      BucketIsRecent(init, ip, now);
      if last.ip == ip {
        var kept := Fresh(Bucket(After(init), ip), last.now);
        FreshTwice(Bucket(After(init), ip), last.now, now);
        if Admits(After(init), last) {
          FreshSnoc(kept, last.now, now);
          FreshSnoc(Granted(init, ip), last.now, now);
        } else {
          assert Granted(run, ip) == Granted(init, ip);
        }
      } else {
        assert Granted(run, ip) == Granted(init, ip);
      }
    }
  }

  /** A window that reaches up to now holds only fresh times. */
  lemma {:induction false} WindowIsFresh(times: seq<int>, from: int, now: int)
    requires now < from + RATE_WINDOW_MS
    ensures CountIn(times, from, from + RATE_WINDOW_MS) <= |Fresh(times, now)|
  {
    if times != [] {
      WindowIsFresh(times[..|times| - 1], from, now);
    }
  }

  lemma {:induction false} FreshIsWindow(times: seq<int>, now: int, from: int)
    requires from == now - RATE_WINDOW_MS + 1
    requires forall i :: 0 <= i < |times| ==> times[i] <= now
    ensures |Fresh(times, now)| == CountIn(times, from, from + RATE_WINDOW_MS)
  {
    if times != [] {
      FreshIsWindow(times[..|times| - 1], now, from);
    }
  }

  lemma {:induction false} GrantedNotAfter(run: seq<Request>, ip: string, now: int)
    requires NotAfter(run, now)
    ensures forall i :: 0 <= i < |Granted(run, ip)| ==> Granted(run, ip)[i] <= now
  {
    if run != [] {
      assert NotAfter(run[..|run| - 1], now);
      GrantedNotAfter(run[..|run| - 1], ip, now);
    }
  }

  // ------------------------------------------------------------------ the limit

  lemma CountSnoc(times: seq<int>, t: int, from: int, to: int)
    ensures CountIn(times + [t], from, to) == CountIn(times, from, to) + if from <= t < to then 1 else 0
  {
    assert (times + [t])[..|times|] == times;
  }

  lemma InitOrdered(run: seq<Request>)
    requires run != [] && Monotone(run)
    ensures Monotone(run[..|run| - 1]) && NotAfter(run[..|run| - 1], run[|run| - 1].now)
  {
    var init, last := run[..|run| - 1], run[|run| - 1];
    forall i | 0 <= i < |init| ensures init[i].now <= last.now {
      assert init[i] == run[i];
    }
  }

  /** One more admitted request still fits every window it lies in. */
  lemma AdmittedFits(run: seq<Request>, r: Request, from: int)
    requires Monotone(run) && NotAfter(run, r.now) && Admits(After(run), r)
    requires from <= r.now < from + RATE_WINDOW_MS
    ensures CountIn(Granted(run, r.ip), from, from + RATE_WINDOW_MS) < RATE_MAX_REQS
  {
    BucketIsRecent(run, r.ip, r.now);
    WindowIsFresh(Granted(run, r.ip), from, r.now);
  }

  /** In every run and for every address, no window of 60000 ms holds more than 1200 admitted requests. */
  lemma {:induction false} NeverTooMany(run: seq<Request>, ip: string, from: int)
    requires Monotone(run)
    ensures CountIn(Granted(run, ip), from, from + 60_000) <= 1200
  {
    if run != [] {
      var init, last := run[..|run| - 1], run[|run| - 1];
      InitOrdered(run);
      NeverTooMany(init, ip, from);
      if last.ip == ip && Admits(After(init), last) {
        CountSnoc(Granted(init, ip), last.now, from, from + RATE_WINDOW_MS);
        if from <= last.now < from + RATE_WINDOW_MS {
          AdmittedFits(init, last, from);
        }
      } else {
        assert Granted(run, ip) == Granted(init, ip);
      }
    }
  }

  /** A request is refused exactly when 1200 admitted ones lie in the window that ends with it. */
  lemma RefusedIff(run: seq<Request>, r: Request)
    requires Monotone(run) && NotAfter(run, r.now)
    ensures !Admits(After(run), r)
       <==> CountIn(Granted(run, r.ip), r.now - 60_000 + 1, r.now + 1) == 1200
  {
    var granted, from := Granted(run, r.ip), r.now - RATE_WINDOW_MS + 1;
    BucketIsRecent(run, r.ip, r.now);
    GrantedNotAfter(run, r.ip, r.now);
    FreshIsWindow(granted, r.now, from);
    NeverTooMany(run, r.ip, from);
    assert !Admits(After(run), r) <==> |Fresh(granted, r.now)| >= RATE_MAX_REQS;
  }

  /** However the clock runs, no list grows beyond the limit. */
  lemma {:induction false} BucketsBounded(run: seq<Request>, ip: string)
    ensures |Bucket(After(run), ip)| <= 1200
  {
    if run != [] {
      BucketsBounded(run[..|run| - 1], ip);
      FreshShorter(Bucket(After(run[..|run| - 1]), ip), run[|run| - 1].now);
    }
  }

  lemma {:induction false} FreshShorter(times: seq<int>, now: int)
    ensures |Fresh(times, now)| <= |times|
  {
    if times != [] {
      FreshShorter(times[..|times| - 1], now);
    }
  }
}
