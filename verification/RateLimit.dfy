/** The sliding-window limiter (backend/app/middleware/rate_limit.py): one Redis
    sorted set per client, pruned, counted, added to and given a time to live on
    every request. A member is the text of its own score, so a set of scores
    stands for it. Redis and the server read one clock. */
module RateLimit {
  import opened Prelude

  datatype Config = Config(window: real, limit: int)

  /** A key with its expiry time. */
  datatype SortedSet = SortedSet(scores: set<real>, expires: real)

  /** What a command at time `now` finds under a key. */
  function Live(z: Option<SortedSet>, now: real): set<real> {
    if z.Some? && now < z.value.expires then z.value.scores else {}
  }

  /** zremrangebyscore(key, 0, highest), both ends included. */
  function RemoveRange(scores: set<real>, highest: real): set<real> {
    set s | s in scores && !(0.0 <= s <= highest)
  }

  /** The pipeline and the decision on its second result. */
  function Dispatch(cfg: Config, z: Option<SortedSet>, now: real): (SortedSet, bool) {
    var kept := RemoveRange(Live(z, now), now - cfg.window);
    (SortedSet(kept + {now}, now + cfg.window), |kept| < cfg.limit)
  }

  class RateLimitMiddleware {
    const cfg: Config
    var keys: map<string, SortedSet>

    constructor (cfg: Config)
      ensures this.cfg == cfg && keys == map[]
    {
      this.cfg := cfg;
      this.keys := map[];
    }

    function Lookup(key: string): Option<SortedSet>
      reads this
    {
      if key in keys then Some(keys[key]) else None
    }

    method Request(key: string, now: real) returns (admitted: bool)
      modifies this
      ensures (Lookup(key), admitted)
           == (Some(Dispatch(cfg, old(Lookup(key)), now).0), Dispatch(cfg, old(Lookup(key)), now).1)
      ensures Lookup(key).value.expires == now + cfg.window && now in Lookup(key).value.scores
      ensures forall other :: other != key ==> Lookup(other) == old(Lookup(other))
    {
      var scores := Live(Lookup(key), now);
      scores := RemoveRange(scores, now - cfg.window);
      var count := |scores|;
      scores := scores + {now};
      keys := keys[key := SortedSet(scores, now + cfg.window)];
      admitted := count < cfg.limit;
    }
  }

  // ---------------------------------------------------------------- Runs of one client

  function After(cfg: Config, times: seq<real>): Option<SortedSet> {
    if times == [] then None
    else Some(Dispatch(cfg, After(cfg, times[..|times| - 1]), times[|times| - 1]).0)
  }

  /** The decision on request k. */
  function Admitted(cfg: Config, times: seq<real>, k: nat): bool
    requires k < |times|
  {
    Dispatch(cfg, After(cfg, times[..k]), times[k]).1
  }

  ghost predicate Clock(times: seq<real>) {
    (forall i :: 0 <= i < |times| ==> times[i] >= 0.0) && forall i, j :: 0 <= i < j < |times| ==> times[i] <= times[j]
  }

  ghost predicate StrictClock(times: seq<real>) {
    Clock(times) && NoDup(times)
  }

  /** The timestamps of a log that are younger than the window. */
  ghost function Recent(times: seq<real>, now: real, window: real): set<real> {
    set t | t in times && t > now - window
  }

  /** How many requests of the full log, refused ones included, are younger than
      the window. */
  function RecentRequests(times: seq<real>, now: real, window: real): nat {
    if times == [] then 0
    else RecentRequests(times[..|times| - 1], now, window) + if times[|times| - 1] > now - window then 1 else 0
  }

  lemma ClockBound(times: seq<real>, now: real, t: real)
    requires Clock(times + [now]) && t in times
    ensures 0.0 <= t <= times[|times| - 1] <= now
  {
    var all := times + [now];
    var i :| 0 <= i < |times| && times[i] == t;
    assert all[i] == t && all[|times|] == now && all[|times| - 1] == times[|times| - 1];
  }

  /** Pruning and expiry lose nothing that a later request would count. */
  lemma {:induction false} KeptExactly(cfg: Config, times: seq<real>, now: real)
    requires Clock(times + [now])
    ensures RemoveRange(Live(After(cfg, times), now), now - cfg.window) == Recent(times, now, cfg.window)
  {
    if times != [] {
      var front, last := times[..|times| - 1], times[|times| - 1];
      assert times == front + [last];
      ClockFront(front, last, now);
      KeptExactly(cfg, front, last);
      PruneAgain(cfg, front, last, now);
    }
  }

  lemma PruneAgain(cfg: Config, front: seq<real>, last: real, now: real)
    requires Clock(front + [last] + [now])
    ensures RemoveRange(Live(Some(SortedSet(Recent(front, last, cfg.window) + {last}, last + cfg.window)), now),
      now - cfg.window)
         == Recent(front + [last], now, cfg.window)
  {
    hide Clock;
    forall t | t in front + [last]
      ensures 0.0 <= t <= last <= now
    {
      ClockBound(front + [last], now, t);
    }
    assert last in front + [last];
    assert forall t :: t in front + [last] <==> t in front || t == last;
  }

  lemma ClockFront(front: seq<real>, last: real, now: real)
    requires Clock(front + [last] + [now])
    ensures Clock(front + [last])
  {
    var s := front + [last] + [now];
    assert forall i :: 0 <= i < |front + [last]| ==> (front + [last])[i] == s[i];
  }

  lemma ClockPrefix(times: seq<real>, k: nat)
    requires Clock(times) && k < |times|
    ensures Clock(times[..k] + [times[k]])
  {}

  /** On any clock that does not run backwards the limiter counts the distinct
      timestamps of the full log inside the window. */
  lemma CountsDistinctTimes(cfg: Config, times: seq<real>, k: nat)
    requires Clock(times) && k < |times|
    ensures Admitted(cfg, times, k) <==> |Recent(times[..k], times[k], cfg.window)| < cfg.limit
  {
    ClockPrefix(times, k);
    KeptExactly(cfg, times[..k], times[k]);
  }

  /** No two requests inside the window share a timestamp. */
  ghost predicate NoRepeats(times: seq<real>, now: real, window: real) {
    forall i, j :: 0 <= i < j < |times| && times[i] > now - window ==> times[i] != times[j]
  }

  lemma {:induction false} DistinctTimes(times: seq<real>, now: real, window: real)
    ensures |Recent(times, now, window)| <= RecentRequests(times, now, window)
    ensures |Recent(times, now, window)| == RecentRequests(times, now, window) <==> NoRepeats(times, now, window)
  {
    if times != [] {
      var front, last := times[..|times| - 1], times[|times| - 1];
      assert times == front + [last];
      DistinctTimes(front, now, window);
      LastRepeats(front, last, now, window);
      var seen := Recent(front, now, window);
      if last > now - window && last !in seen {
        assert Recent(times, now, window) == seen + {last};
      } else {
        assert Recent(times, now, window) == seen;
      }
    }
  }

  lemma LastRepeats(front: seq<real>, last: real, now: real, window: real)
    ensures NoRepeats(front + [last], now, window) <==>
      NoRepeats(front, now, window) && last !in Recent(front, now, window)
  {
    var times := front + [last];
    assert forall i :: 0 <= i < |front| ==> times[i] == front[i];
    assert times[|front|] == last;
    if NoRepeats(times, now, window) {
      forall i | 0 <= i < |front| && front[i] > now - window
        ensures front[i] != last
      {
        assert times[i] != times[|front|];
      }
    }
    if NoRepeats(front, now, window) && last !in Recent(front, now, window) {
      forall i, j | 0 <= i < j < |times| && times[i] > now - window
        ensures times[i] != times[j]
      {
        assert front[i] in Recent(front, now, window);
      }
    }
  }

  /** On strictly increasing times it decides as the full request log does. */
  lemma DecidesLikeFullLog(cfg: Config, times: seq<real>, k: nat)
    requires StrictClock(times) && k < |times|
    ensures Admitted(cfg, times, k) <==> RecentRequests(times[..k], times[k], cfg.window) < cfg.limit
  {
    CountsDistinctTimes(cfg, times, k);
    DistinctTimes(times[..k], times[k], cfg.window);
  }

  /** Admissions among requests i to j - 1. */
  function AdmittedCount(cfg: Config, times: seq<real>, i: nat, j: nat): nat
    requires j <= |times|
  {
    if j <= i then 0
    else AdmittedCount(cfg, times, i, j - 1) + if Admitted(cfg, times, j - 1) then 1 else 0
  }

  lemma {:induction false} AtMostAll(cfg: Config, times: seq<real>, i: nat, j: nat)
    requires i <= j <= |times|
    ensures AdmittedCount(cfg, times, i, j) <= j - i
  {
    hide Admitted;
    if i < j {
      AtMostAll(cfg, times, i, j - 1);
    }
  }

  lemma {:induction false} RecentAtLeast(times: seq<real>, i: nat, now: real, window: real)
    requires i <= |times| && forall k :: i <= k < |times| ==> times[k] > now - window
    ensures RecentRequests(times, now, window) >= |times| - i
  {
    if i < |times| {
      var front := times[..|times| - 1];
      assert forall k :: 0 <= k < |front| ==> front[k] == times[k];
      RecentAtLeast(front, i, now, window);
    }
  }

  /** Of requests that all lie within less than one window, at most `limit` are admitted. */
  lemma {:induction false} WindowBound(cfg: Config, times: seq<real>, i: nat, j: nat)
    requires StrictClock(times) && i < j <= |times| && times[j - 1] - times[i] < cfg.window && cfg.limit >= 0
    ensures AdmittedCount(cfg, times, i, j) <= cfg.limit
  {
    hide Admitted;
    var k := j - 1;
    if Admitted(cfg, times, k) {
      DecidesLikeFullLog(cfg, times, k);
      RecentAtLeast(times[..k], i, times[k], cfg.window);
      AtMostAll(cfg, times, i, k);
    } else if i < k {
      WindowBound(cfg, times, i, k);
    }
  }

  ghost predicate InWindow(times: seq<real>, i: nat, j: nat, start: real, window: real)
    requires j <= |times|
  {
    forall k :: i <= k < j ==> start < times[k] <= start + window
  }

  /** At most `limit` requests are admitted in any half-open window. */
  lemma HalfOpenWindowBound(cfg: Config, times: seq<real>, i: nat, j: nat, start: real)
    requires StrictClock(times) && i <= j <= |times| && cfg.limit >= 0
    requires InWindow(times, i, j, start, cfg.window)
    ensures AdmittedCount(cfg, times, i, j) <= cfg.limit
  {
    if i < j {
      WindowBound(cfg, times, i, j);
    }
  }

  /** Requests with one and the same timestamp are one member of the set: with a
      limit of two or more, any number of them is admitted. */
  lemma {:induction false} SimultaneousAllAdmitted(cfg: Config, now: real, n: nat, k: nat)
    requires now >= 0.0 && cfg.limit >= 2 && k < n
    ensures Admitted(cfg, seq(n, _ => now), k)
  {
    var times := seq(n, _ => now);
    CountsDistinctTimes(cfg, times, k);
    var recent := Recent(times[..k], now, cfg.window);
    assert recent <= {now};
    SubsetSize(recent, {now});
  }

  /** So on a clock that may stand still the limiter meets the full log, whatever
      the limit, exactly when no timestamp repeats inside the window. */
  lemma MeetsFullLogIff(window: real, times: seq<real>, k: nat)
    requires Clock(times) && k < |times|
    ensures (forall limit: int ::
               Admitted(Config(window, limit), times, k) <==> RecentRequests(times[..k], times[k], window) < limit)
       <==> NoRepeats(times[..k], times[k], window)
  {
    hide Admitted, NoRepeats, Clock;
    DistinctTimes(times[..k], times[k], window);
    var distinct, all := |Recent(times[..k], times[k], window)|, RecentRequests(times[..k], times[k], window);
    forall limit: int
      ensures Admitted(Config(window, limit), times, k) <==> distinct < limit
    {
      CountsDistinctTimes(Config(window, limit), times, k);
    }
    assert distinct < all ==> Admitted(Config(window, all), times, k) && !(all < all);
  }
}
