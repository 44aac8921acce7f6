/** The `/tts` route as the server exposes it: the rate-limit decorator with
    its quota of 10 requests per hour per client address, wrapped around the
    endpoint. */
module Service {
  import opened Wrappers
  import opened Decimal
  import opened RateLimit
  import opened Tts

  const TtsQuota: int := 10
  const MaximumPrefix: string := "Maximum "
  const MaximumSuffix: string := " requests per hour"
  const WaitPrefix: string := "Please wait "
  const WaitSuffix: string := " minutes"

  /** The reply once the limiter has decided: the endpoint's reply when the
      request was admitted, the 429 reply when it was refused, and the server's
      500 page when the limiter itself failed. */
  function Serve(d: Decision, maxRequests: int, body: Result<TtsBody, string>,
                 synthesize: SpeechRequest -> Result<seq<byte>, string>): (r: Response)
    ensures Status(r) == 429 <==> d.Limited?
    ensures Status(r) == 200 ==> d.Admitted?
  {
    match d
    case Admitted => TtsEndpoint(body, synthesize)
    case Limited(m) =>
      RateLimited(MaximumPrefix + IntString(maxRequests) + MaximumSuffix, m,
                  WaitPrefix + IntString(m) + WaitSuffix)
    case Crashed => InternalServerError
  }

  /** A refused request is answered the same whatever the body and whatever
      the speech service would say: the service is never asked. */
  lemma RefusedNeverSynthesizes(d: Decision, maxRequests: int,
                                b1: Result<TtsBody, string>, b2: Result<TtsBody, string>,
                                s1: SpeechRequest -> Result<seq<byte>, string>,
                                s2: SpeechRequest -> Result<seq<byte>, string>)
    requires !d.Admitted?
    ensures Serve(d, maxRequests, b1, s1) == Serve(d, maxRequests, b2, s2)
    ensures Status(Serve(d, maxRequests, b1, s1)) != 200
  {
  }

  /** The 429 reply names the quota in its message and the wait, in whole
      minutes, in both its `wait_time` field and its advice; both numbers can
      be read back from the text. */
  lemma RefusalReadsBack(m: int, maxRequests: int, body: Result<TtsBody, string>,
                         synthesize: SpeechRequest -> Result<seq<byte>, string>)
    ensures Serve(Limited(m), maxRequests, body, synthesize).waitTime == m
    ensures var msg := Serve(Limited(m), maxRequests, body, synthesize).message;
      |msg| > |MaximumPrefix| + |MaximumSuffix|
      && msg[..|MaximumPrefix|] == MaximumPrefix
      && ParseInt(msg[|MaximumPrefix|..|msg| - |MaximumSuffix|]) == Some(maxRequests)
    ensures var advice := Serve(Limited(m), maxRequests, body, synthesize).tryAgain;
      |advice| > |WaitPrefix| + |WaitSuffix|
      && advice[..|WaitPrefix|] == WaitPrefix
      && ParseInt(advice[|WaitPrefix|..|advice| - |WaitSuffix|]) == Some(m)
  {
    FramedNumber(MaximumPrefix, maxRequests, MaximumSuffix);
    FramedNumber(WaitPrefix, m, WaitSuffix);
  }

  /** Helper: a number written between two fixed texts reads back. */
  lemma FramedNumber(prefix: string, n: int, suffix: string)
    ensures var s := prefix + IntString(n) + suffix;
      |s| > |prefix| + |suffix|
      && s[..|prefix|] == prefix
      && ParseInt(s[|prefix|..|s| - |suffix|]) == Some(n)
  {
    var s := prefix + IntString(n) + suffix;
    assert s[..|prefix|] == prefix;
    assert s[|prefix|..|s| - |suffix|] == IntString(n);
    ParseIntString(n);
  }

  /** With the quota of 10 the limiter never fails; a request is refused only
      when ten requests of the same client were admitted in the hour before it,
      and then it has to wait at most an hour. A request is counted as soon as
      it is admitted, even when its body is then refused with 400. */
  lemma TtsRouteQuota(log: map<string, seq<real>>, client: string, now: real)
    ensures var (d, log') := Admit(log, client, now, TtsQuota);
      && !d.Crashed?
      && (d.Admitted? ==> log'[client] != [] && log'[client][|log'[client]| - 1] == now
                          && |log'[client]| <= TtsQuota)
      && (d.Limited? ==> client in log && |Prune(log[client], now)| >= TtsQuota)
      && (client in log && d.Limited? && (forall t :: t in log[client] ==> t <= now) ==>
            0 <= d.waitMinutes <= 60)
  {
    AdmitWithinQuota(log, client, now, TtsQuota);
  }

  /** `tts` behind `@rate_limit(max_requests_per_hour=10)`. */
  method HandleTts(limiter: RateLimiter, client: string, now: real,
                   body: Result<TtsBody, string>,
                   synthesize: SpeechRequest -> Result<seq<byte>, string>)
      returns (r: Response)
    requires limiter.maxRequestsPerHour == TtsQuota
    modifies limiter
    ensures var (d, log') := Admit(old(limiter.requestLog), client, now, TtsQuota);
      limiter.requestLog == log' && r == Serve(d, TtsQuota, body, synthesize)
  {
    var d := limiter.Check(client, now);
    r := Serve(d, TtsQuota, body, synthesize);
  }
}
