/** `check_rate_limit`: a sliding one-hour window of upload timestamps per client address. */
module RateLimit {

  const MaxUploadsPerIp := 5
  const RateLimitWindow := 3600

  type Attempts = map<string, seq<int>>

  /** `[t for t in ts if now - t < RATE_LIMIT_WINDOW]`: the timestamps still inside the window,
      in their order, each kept exactly as often as it occurs. */
  function Recent(ts: seq<int>, now: int): (r: seq<int>)
    ensures forall t :: t in r ==> now - t < RateLimitWindow
    ensures forall t :: multiset(r)[t] == if now - t < RateLimitWindow then multiset(ts)[t] else 0
    ensures |r| <= |ts|
  {
    if ts == [] then []
    else
      assert ts == [ts[0]] + ts[1..];
      var rest := Recent(ts[1..], now);
      if now - ts[0] < RateLimitWindow then [ts[0]] + rest else rest
  }

  /** The timestamps recorded for `ip`, none when it has no entry. */
  function Lookup(m: Attempts, ip: string): seq<int>
  {
    if ip in m then m[ip] else []
  }

  /** The cleaning loop over every address: lists are filtered to the window and addresses whose
      list became empty are deleted. */
  function Pruned(m: Attempts, now: int): (p: Attempts)
  {
    map ip | ip in m && Recent(m[ip], now) != [] :: Recent(m[ip], now)
  }

  /** The verdict of `check_rate_limit` and the table afterwards. */
  function Admit(m: Attempts, ip: string, now: int): (bool, Attempts)
  {
    var p := Pruned(m, now);
    var cur := Lookup(p, ip);
    if |cur| >= MaxUploadsPerIp then (false, p[ip := cur])
    else (true, p[ip := cur + [now]])
  }

  /** No list in the table is longer than the limit. */
  predicate Bounded(m: Attempts)
  {
    forall ip :: ip in m ==> |m[ip]| <= MaxUploadsPerIp
  }

  /** The verdict is true exactly when the address has fewer than 5 timestamps inside the window;
      on true `now` is appended to its filtered list, on false the filtered list is kept. */
  lemma AdmitVerdict(m: Attempts, ip: string, now: int)
    ensures Admit(m, ip, now).0 <==> |Recent(Lookup(m, ip), now)| < MaxUploadsPerIp
    ensures ip in Admit(m, ip, now).1
    ensures Admit(m, ip, now).0 ==> Admit(m, ip, now).1[ip] == Recent(Lookup(m, ip), now) + [now]
    ensures !Admit(m, ip, now).0 ==> Admit(m, ip, now).1[ip] == Recent(Lookup(m, ip), now)
  {
    var p := Pruned(m, now);
    assert Lookup(p, ip) == Recent(Lookup(m, ip), now);
  }

  /** After the call every stored timestamp is inside the window, no address maps to an empty list,
      and every other address keeps its filtered list, which only ever loses entries. */
  lemma AdmitState(m: Attempts, ip: string, now: int)
    ensures var m' := Admit(m, ip, now).1;
      && (forall a :: a in m' ==> m'[a] != [] && forall t :: t in m'[a] ==> now - t < RateLimitWindow)
      && (forall a :: a in m' && a != ip ==> a in m && m'[a] == Recent(m[a], now) && multiset(m'[a]) <= multiset(m[a]))
      && (forall a :: a in m && a != ip && a !in m' ==> Recent(m[a], now) == [])
  {
    var m' := Admit(m, ip, now).1;
    AdmitVerdict(m, ip, now);
    forall a | a in m' ensures m'[a] != [] && forall t :: t in m'[a] ==> now - t < RateLimitWindow {
      if a == ip && Admit(m, ip, now).0 {
        forall t | t in m'[a] ensures now - t < RateLimitWindow {
          if t != now { assert t in Recent(Lookup(m, ip), now); }
        }
      }
    }
    forall a | a in m' && a != ip ensures multiset(m'[a]) <= multiset(m[a]) {
      assert m'[a] == Recent(m[a], now);
    }
  }

  /** A table in which no address has more than 5 timestamps stays so. */
  lemma AdmitPreservesBound(m: Attempts, ip: string, now: int)
    requires Bounded(m)
    ensures Bounded(Admit(m, ip, now).1)
  {
    var m' := Admit(m, ip, now).1;
    forall a | a in m' ensures |m'[a]| <= MaxUploadsPerIp {
      if a != ip { assert m'[a] == Recent(m[a], now); }
    }
  }

  /** The `upload_attempts` table. */
  class RateLimiter {
    var attempts: Attempts

    constructor ()
      ensures attempts == map[]
    {
      attempts := map[];
    }

    /** The cleaning loop at the head of `check_rate_limit`: each address's list is filtered
        in place and deleted once empty. */
    method PruneAll(now: int)
      modifies this
      ensures attempts == Pruned(old(attempts), now)
    {
      ghost var m := attempts;
      var pending := attempts.Keys;
      while pending != {}
        invariant pending <= m.Keys
        invariant forall a :: a in pending ==> a in attempts && attempts[a] == m[a]
        invariant forall a :: a in m && a !in pending ==>
          (a in attempts <==> Recent(m[a], now) != []) && (a in attempts ==> attempts[a] == Recent(m[a], now))
        invariant attempts.Keys <= m.Keys
        decreases pending
      {
        var a :| a in pending;
        var kept := Recent(attempts[a], now);
        attempts := attempts[a := kept];
        if kept == [] {
          attempts := attempts - {a};
        }
        pending := pending - {a};
      }
      assert attempts.Keys == Pruned(m, now).Keys;
    }

    /** `check_rate_limit(ip_address)`, with the clock reading passed in as `now`. */
    method CheckRateLimit(ip: string, now: int) returns (allowed: bool)
      modifies this
      ensures (allowed, attempts) == Admit(old(attempts), ip, now)
    {
      PruneAll(now);
      ghost var p := attempts;
      if ip !in attempts {
        attempts := attempts[ip := []];
      }
      assert attempts == p[ip := Lookup(p, ip)];
      if |attempts[ip]| >= MaxUploadsPerIp {
        return false;
      }
      attempts := attempts[ip := attempts[ip] + [now]];
      assert attempts == p[ip := Lookup(p, ip) + [now]];
      return true;
    }
  }
}
