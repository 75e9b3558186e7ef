/**
 * The per-client rate-limit registry of `rateLimit` (cmd/api/middleware.go:44-98):
 * a map from the client's IP address to its limiter and the time it was last
 * seen, an admission step run once per request, and the idle-eviction sweep
 * that the background goroutine runs every minute. Times are milliseconds.
 */
module RateLimit {
  import TokenBucket

  /** Entries idle for longer than this (3 minutes) are evicted by a sweep. */
  const IdleThreshold: nat := 3 * 60 * 1000

  datatype Client = Client(limiter: TokenBucket.Limiter, lastSeen: nat)

  /** Allow: `next` handles the request. Deny: the rate-limit-exceeded response is sent instead. */
  datatype Verdict = Allow | Deny

  /** `time.Since(lastSeen) > 3*time.Minute`: strictly longer than the threshold. */
  predicate Idle(c: Client, now: nat)
  {
    now - c.lastSeen > IdleThreshold
  }

  class Registry {
    /** The configured refill rate (requests per second) and burst size. */
    const rps: nat
    const burst: nat
    var clients: map<string, Client>

    /** Every limiter in the map was built from the configuration and never overfills. */
    ghost predicate Valid()
      reads this
    {
      forall ip :: ip in clients ==>
        var l := clients[ip].limiter;
        l.rps == rps && l.burst == burst && TokenBucket.Valid(l)
    }

    constructor (rps: nat, burst: nat)
      ensures Valid()
      ensures this.rps == rps && this.burst == burst
      ensures clients == map[]
    {
      this.rps := rps;
      this.burst := burst;
      clients := map[];
    }

    /**
     * The admission step for one request from `ip` at time `now`. When limiting
     * is disabled every request is allowed and the map is left alone. Otherwise
     * an unseen IP gets a fresh limiter, the IP's `lastSeen` is stamped whether
     * the request is then allowed or denied, its limiter is asked for a token,
     * and no other IP's entry changes.
     */
    method Check(ip: string, now: nat, enabled: bool) returns (v: Verdict)
      requires Valid()
      modifies this
      ensures Valid()
      ensures !enabled ==> v == Allow && clients == old(clients)
      ensures enabled ==>
        var prior := if ip in old(clients) then old(clients)[ip].limiter
                     else TokenBucket.New(rps, burst, now);
        var step := TokenBucket.Allow(prior, now);
        && clients == old(clients)[ip := Client(step.limiter, now)]
        && (v == Allow <==> step.ok)
      ensures enabled ==> clients.Keys == old(clients).Keys + {ip} && clients[ip].lastSeen == now
      ensures forall other :: other != ip && other in old(clients) ==>
        other in clients && clients[other] == old(clients)[other]
    {
      if !enabled {
        return Allow;
      }
      if ip !in clients {
        clients := clients[ip := Client(TokenBucket.New(rps, burst, now), now)];
      }
      clients := clients[ip := clients[ip].(lastSeen := now)];
      var step := TokenBucket.Allow(clients[ip].limiter, now);
      clients := clients[ip := clients[ip].(limiter := step.limiter)];
      v := if step.ok then Allow else Deny;
    }

    /**
     * One pass of the eviction goroutine at time `now`: removes exactly the
     * entries idle for strictly more than three minutes and leaves every other
     * entry as it was.
     */
    method Sweep(now: nat)
      requires Valid()
      modifies this
      ensures Valid()
      ensures clients == map ip | ip in old(clients) && !Idle(old(clients)[ip], now) :: old(clients)[ip]
    {
      var pending := clients.Keys;
      while pending != {}
        invariant pending <= old(clients).Keys
        invariant clients == map ip | ip in old(clients) && (ip in pending || !Idle(old(clients)[ip], now)) :: old(clients)[ip]
        decreases pending
      {
        var ip :| ip in pending;
        if Idle(clients[ip], now) {
          clients := clients - {ip};
        }
        pending := pending - {ip};
      }
    }
  }

  /**
   * The round trip a client sees: once a sweep has evicted it, its next
   * admitted request at time `now` starts again from a full bucket, so it is
   * allowed exactly when the burst size is positive.
   */
  method ReadmitAfterEviction(r: Registry, ip: string, sweptAt: nat, now: nat) returns (v: Verdict)
    requires r.Valid()
    requires ip in r.clients && Idle(r.clients[ip], sweptAt)
    modifies r
    ensures r.Valid()
    ensures v == Allow <==> r.burst >= 1
    ensures ip in r.clients && r.clients[ip].lastSeen == now
    ensures r.burst >= 1 ==> r.clients[ip].limiter.tokens == (r.burst - 1) * TokenBucket.Unit
  {
    r.Sweep(sweptAt);
    assert ip !in r.clients;
    v := r.Check(ip, now, true);
  }
}
