/** The `rate_limit` decorator of app.py: a log of request times per client
    address, pruned to the last hour on every request; a client that already
    has the maximum number of requests in that hour is turned away with the
    number of whole minutes until its oldest logged request expires.
    Times are `time.time()` values, modelled as reals. */
module RateLimit {
  import opened Wrappers

  /** The length of the window, one hour in seconds. */
  const Window: real := 3600.0

  /** What the decorator does with one request. `Crashed` is `min()` of an
      empty list raising, which happens only when the limit is zero or
      negative and the client's pruned list is empty. */
  datatype Decision = Admitted | Limited(waitMinutes: int) | Crashed

  /** `[t for t in ts if now - t < 3600]`: the times of the last hour, in order. */
  function Prune(ts: seq<real>, now: real): (r: seq<real>)
    ensures forall t :: t in r <==> t in ts && now - t < Window
    ensures |r| <= |ts|
  {
    if ts == [] then []
    else (if now - ts[0] < Window then [ts[0]] else []) + Prune(ts[1..], now)
  }

  /** `min(ts)`. */
  function Min(ts: seq<real>): (r: real)
    requires ts != []
    ensures r in ts
    ensures forall t :: t in ts ==> r <= t
  {
    if |ts| == 1 then ts[0]
    else
      var m := Min(ts[1..]);
      assert ts == [ts[0]] + ts[1..];
      if ts[0] <= m then ts[0] else m
  }

  /** Python's `int()` on a float: truncation toward zero. */
  function Trunc(x: real): (r: int)
    ensures 0.0 <= x ==> r as real <= x < r as real + 1.0
    ensures x < 0.0 ==> r as real - 1.0 < x <= r as real
  {
    if x >= 0.0 then x.Floor else -((-x).Floor)
  }

  /** `int((3600 - (now - oldest)) / 60)`: the minutes reported to a refused
      client. */
  function WaitMinutes(oldest: real, now: real): int
  {
    Trunc((Window - (now - oldest)) / 60.0)
  }

  /** For a logged time of the last hour that is not in the future, the report
      is the whole number of minutes left until it leaves the window, between
      0 and 60. */
  lemma WaitMinutesBounds(oldest: real, now: real)
    requires now - Window < oldest <= now
    ensures 0 <= WaitMinutes(oldest, now) <= 60
    ensures WaitMinutes(oldest, now) as real * 60.0 <= oldest + Window - now
    ensures oldest + Window - now < (WaitMinutes(oldest, now) + 1) as real * 60.0
  {
  }

  /** The decorator's work for one client: `entry` is its list of times when
      it has one. The list is pruned, the request is refused when the pruned
      list already holds `maxRequests` times, and otherwise `now` is appended
      (the list being created for a new client). A new client is never refused,
      whatever the limit. */
  function ClientStep(entry: Option<seq<real>>, now: real, maxRequests: int): (r: (Decision, seq<real>))
    ensures entry.None? ==> r == (Admitted, [now])
    ensures entry.Some? ==> (r.0 == Admitted <==> |Prune(entry.value, now)| < maxRequests)
    ensures entry.Some? && r.0 == Admitted ==> r.1 == Prune(entry.value, now) + [now]
    ensures entry.Some? && r.0 != Admitted ==> r.1 == Prune(entry.value, now)
    ensures r.0 == Crashed <==> entry.Some? && Prune(entry.value, now) == [] && maxRequests <= 0
    ensures r.0.Limited? ==>
      (entry.Some? && Prune(entry.value, now) != []
       && r.0.waitMinutes == WaitMinutes(Min(Prune(entry.value, now)), now))
  {
    match entry
    case None => (Admitted, [now])
    case Some(ts) =>
      var kept := Prune(ts, now);
      if |kept| >= maxRequests then
        if kept == [] then (Crashed, kept)
        else (Limited(WaitMinutes(Min(kept), now)), kept)
      else (Admitted, kept + [now])
  }

  /** The decorator on the whole `request_log`: only the requesting client's
      entry is touched. */
  function Admit(log: map<string, seq<real>>, client: string, now: real, maxRequests: int)
    : (r: (Decision, map<string, seq<real>>))
    ensures client in r.1
    ensures forall c :: c != client ==> (c in r.1 <==> c in log)
    ensures forall c :: c != client && c in log ==> r.1[c] == log[c]
  {
    var step := ClientStep(if client in log then Some(log[client]) else None, now, maxRequests);
    (step.0, log[client := step.1])
  }

  /** With a positive limit the decorator never crashes, a refusal reports
      between 0 and 60 minutes when no logged time is in the future, and an
      admitted client holds at most `maxRequests` times. */
  lemma AdmitWithinQuota(log: map<string, seq<real>>, client: string, now: real, maxRequests: int)
    requires maxRequests >= 1
    ensures Admit(log, client, now, maxRequests).0 != Crashed
    ensures Admit(log, client, now, maxRequests).0 == Admitted ==>
      |Admit(log, client, now, maxRequests).1[client]| <= maxRequests
    ensures client in log && (forall t :: t in log[client] ==> t <= now) ==>
      match Admit(log, client, now, maxRequests).0
      case Limited(m) => 0 <= m <= 60
      case _ => true
  {
    if client in log {
      var kept := Prune(log[client], now);
      if |kept| >= maxRequests && (forall t :: t in log[client] ==> t <= now) {
        var oldest := Min(kept);
        assert oldest in kept;
        WaitMinutesBounds(oldest, now);
      }
    }
  }

  /** Pruning works element by element. */
  lemma {:induction false} PruneAppend(a: seq<real>, b: seq<real>, now: real)
    ensures Prune(a + b, now) == Prune(a, now) + Prune(b, now)
  {
    if a == [] {
      assert a + b == b;
    } else {
      var head := if now - a[0] < Window then [a[0]] else [];
      assert (a + b)[0] == a[0];
      assert (a + b)[1..] == a[1..] + b;
      assert Prune(a + b, now) == head + Prune(a[1..] + b, now);
      PruneAppend(a[1..], b, now);
      assert Prune(a, now) == head + Prune(a[1..], now);
    }
  }

  /** Pruning early never changes a later pruning: the log may be cleaned at
      any earlier time without effect. */
  lemma {:induction false} PruneTwice(ts: seq<real>, earlier: real, now: real)
    requires earlier <= now
    ensures Prune(Prune(ts, earlier), now) == Prune(ts, now)
  {
    if ts != [] {
      PruneTwice(ts[1..], earlier, now);
      var head := if earlier - ts[0] < Window then [ts[0]] else [];
      PruneAppend(head, Prune(ts[1..], earlier), now);
    }
  }

  predicate Ascending(s: seq<real>)
  {
    forall i, j :: 0 <= i < j < |s| ==> s[i] <= s[j]
  }

  /** A time no earlier than every logged one keeps the log ascending. */
  lemma AscendingAppend(s: seq<real>, last: real, now: real)
    requires Ascending(s)
    requires forall j :: 0 <= j < |s| ==> s[j] <= last
    requires last <= now
    ensures Ascending(s + [now])
    ensures forall j :: 0 <= j < |s + [now]| ==> (s + [now])[j] <= now
  {
  }

  /** Times that have all left the window are all pruned. */
  lemma {:induction false} PruneAllOld(s: seq<real>, now: real)
    requires forall j :: 0 <= j < |s| ==> now - s[j] >= Window
    ensures Prune(s, now) == []
  {
    if s != [] {
      PruneAllOld(s[1..], now);
    }
  }

  /** Times that are all in the window are all kept. */
  lemma {:induction false} PruneAllRecent(s: seq<real>, now: real)
    requires forall j :: 0 <= j < |s| ==> now - s[j] < Window
    ensures Prune(s, now) == s
  {
    if s != [] {
      PruneAllRecent(s[1..], now);
    }
  }

  /** In an ascending log the pruned times form a prefix: pruning drops the
      first `q` times, all of them out of the window. */
  lemma {:induction false} PruneAscending(s: seq<real>, now: real) returns (q: nat)
    requires Ascending(s)
    ensures q <= |s| && Prune(s, now) == s[q..]
    ensures forall j :: 0 <= j < q ==> now - s[j] >= Window
  {
    if s == [] {
      q := 0;
    } else if now - s[0] < Window {
      PruneAllRecent(s, now);
      q := 0;
    } else {
      var q' := PruneAscending(s[1..], now);
      q := q' + 1;
      assert s[1..][q'..] == s[q..];
    }
  }

  /** The decisions for successive requests of one client, starting from its
      entry in the log. Other clients' requests in between do not matter
      (`Admit` leaves their entries alone). */
  function Replay(entry: Option<seq<real>>, times: seq<real>, maxRequests: int): seq<Decision>
    decreases |times|
  {
    if times == [] then []
    else
      var step := ClientStep(entry, times[0], maxRequests);
      [step.0] + Replay(Some(step.1), times[1..], maxRequests)
  }

  /** A reference limiter that remembers every request it admitted and admits
      a request exactly when fewer than `maxRequests` of them fall in the hour
      before it; a refusal reports the minutes until the oldest of those
      leaves the hour. */
  function IdealStep(admitted: seq<real>, now: real, maxRequests: int): (Decision, seq<real>)
    requires maxRequests >= 1
  {
    var recent := Prune(admitted, now);
    if |recent| < maxRequests then (Admitted, admitted + [now])
    else (Limited(WaitMinutes(Min(recent), now)), admitted)
  }

  /** The reference limiter's decisions for successive requests. */
  function Ideal(admitted: seq<real>, times: seq<real>, maxRequests: int): seq<Decision>
    requires maxRequests >= 1
    decreases |times|
  {
    if times == [] then []
    else
      var step := IdealStep(admitted, times[0], maxRequests);
      [step.0] + Ideal(step.1, times[1..], maxRequests)
  }

  /** The reference admits a request only when, counting it, at most
      `maxRequests` admitted requests fall in the hour that ends with it. */
  lemma IdealWithinQuota(admitted: seq<real>, now: real, maxRequests: int)
    requires maxRequests >= 1
    ensures IdealStep(admitted, now, maxRequests).0 == Admitted <==>
      |Prune(admitted + [now], now)| <= maxRequests
  {
    PruneAppend(admitted, [now], now);
    assert Prune([now], now) == [now];
  }

  /** One pruning of the client's entry `admitted[p..]` at a later time keeps
      what the reference would count, and again drops only a prefix of old
      times. */
  lemma PruneLogged(admitted: seq<real>, p: nat, last: real, now: real) returns (q: nat)
    requires Ascending(admitted)
    requires p <= |admitted|
    requires forall j :: 0 <= j < p ==> last - admitted[j] >= Window
    requires last <= now
    ensures p + q <= |admitted|
    ensures Prune(admitted[p..], now) == admitted[p + q..]
    ensures Prune(admitted, now) == admitted[p + q..]
    ensures forall j :: 0 <= j < p + q ==> now - admitted[j] >= Window
  {
    var log := admitted[p..];
    q := PruneAscending(log, now);
    assert admitted == admitted[..p] + log;
    PruneAppend(admitted[..p], log, now);
    PruneAllOld(admitted[..p], now);
    assert log[q..] == admitted[p + q..];
    forall j | 0 <= j < p + q
      ensures now - admitted[j] >= Window
    {
      if j >= p {
        assert admitted[j] == log[j - p];
      }
    }
  }

  /** One request: the decorator, working on the client's entry
      `admitted[p..]`, decides as the reference does, and its new entry is
      again the reference's memory less a prefix of old times. */
  lemma StepAgrees(admitted: seq<real>, p: nat, last: real, now: real, maxRequests: int)
    returns (q: nat)
    requires maxRequests >= 1
    requires Ascending(admitted)
    requires p <= |admitted|
    requires forall j :: 0 <= j < |admitted| ==> admitted[j] <= last
    requires forall j :: 0 <= j < p ==> last - admitted[j] >= Window
    requires last <= now
    ensures p + q <= |IdealStep(admitted, now, maxRequests).1|
    ensures ClientStep(Some(admitted[p..]), now, maxRequests)
      == (IdealStep(admitted, now, maxRequests).0, IdealStep(admitted, now, maxRequests).1[p + q..])
    ensures Ascending(IdealStep(admitted, now, maxRequests).1)
    ensures forall j :: 0 <= j < |IdealStep(admitted, now, maxRequests).1| ==>
      IdealStep(admitted, now, maxRequests).1[j] <= now
    ensures forall j :: 0 <= j < p + q ==> now - IdealStep(admitted, now, maxRequests).1[j] >= Window
  {
    q := PruneLogged(admitted, p, last, now);
    var kept := admitted[p + q..];
    if |kept| < maxRequests {
      var next := admitted + [now];
      assert next[p + q..] == kept + [now];
      AscendingAppend(admitted, last, now);
    }
  }

  /** Helper: the rest of an ascending sequence is ascending and starts no
      earlier than its first element. */
  lemma AscendingTail(s: seq<real>)
    requires s != [] && Ascending(s)
    ensures Ascending(s[1..])
    ensures |s| > 1 ==> s[0] <= s[1..][0]
  {
  }

  /** The invariant behind `ReplayIsIdeal`: the client's entry is what the
      reference remembers, less a prefix of times that were already out of the
      window at the last request. */
  lemma {:induction false} ReplayFrom(admitted: seq<real>, p: nat, last: real, times: seq<real>, maxRequests: int)
    requires maxRequests >= 1
    requires Ascending(admitted) && Ascending(times)
    requires p <= |admitted|
    requires forall j :: 0 <= j < |admitted| ==> admitted[j] <= last
    requires forall j :: 0 <= j < p ==> last - admitted[j] >= Window
    requires times != [] ==> last <= times[0]
    ensures Replay(Some(admitted[p..]), times, maxRequests) == Ideal(admitted, times, maxRequests)
    decreases |times|
  {
    if times != [] {
      var now, rest := times[0], times[1..];
      var q := StepAgrees(admitted, p, last, now, maxRequests);
      var step := IdealStep(admitted, now, maxRequests);
      AscendingTail(times);
      ReplayFrom(step.1, p + q, now, rest, maxRequests);
      assert Replay(Some(admitted[p..]), times, maxRequests)
        == [step.0] + Replay(Some(step.1[p + q..]), rest, maxRequests);
      assert Ideal(admitted, times, maxRequests) == [step.0] + Ideal(step.1, rest, maxRequests);
    }
  }

  /** For one client whose requests come with a clock that never goes back,
      and a positive limit, the decorator decides every request exactly as the
      reference limiter: pruning the log loses nothing that matters, and at
      most `maxRequests` requests are admitted in any hour before an admitted
      one. */
  lemma ReplayIsIdeal(times: seq<real>, maxRequests: int)
    requires maxRequests >= 1
    requires Ascending(times)
    ensures Replay(None, times, maxRequests) == Ideal([], times, maxRequests)
  {
    if times != [] {
      assert Prune([], times[0]) == [];
      assert ([] + [times[0]])[0..] == [times[0]];
      ReplayFrom([times[0]], 0, times[0], times[1..], maxRequests);
    }
  }

  /** `request_log` with the limit of the decorator it belongs to. */
  class RateLimiter {
    var requestLog: map<string, seq<real>>
    const maxRequestsPerHour: int

    constructor (maxRequestsPerHour: int)
      ensures this.maxRequestsPerHour == maxRequestsPerHour
      ensures requestLog == map[]
    {
      this.maxRequestsPerHour := maxRequestsPerHour;
      requestLog := map[];
    }

    /** The checks `decorated_function` makes before calling the handler. */
    method Check(client: string, now: real) returns (d: Decision)
      modifies this
      ensures (d, requestLog) == Admit(old(requestLog), client, now, maxRequestsPerHour)
    {
      if client in requestLog {
        requestLog := requestLog[client := Prune(requestLog[client], now)];
      }
      if client in requestLog && |requestLog[client]| >= maxRequestsPerHour {
        if requestLog[client] == [] {
          return Crashed;
        }
        return Limited(WaitMinutes(Min(requestLog[client]), now));
      }
      if client !in requestLog {
        requestLog := requestLog[client := []];
      }
      requestLog := requestLog[client := requestLog[client] + [now]];
      if client in old(requestLog) {
        assert requestLog[client] == Prune(old(requestLog)[client], now) + [now];
        assert ClientStep(Some(old(requestLog)[client]), now, maxRequestsPerHour) == (Admitted, requestLog[client]);
      } else {
        assert requestLog[client] == [now];
      }
      assert requestLog == old(requestLog)[client := requestLog[client]];
      return Admitted;
    }
  }
}
