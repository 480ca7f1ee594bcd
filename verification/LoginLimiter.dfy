/** Login back-off: the delay a failure earns, its saturation, and what forgetting old attempts can change. */
module LoginLimiter {

  /** Durations and instants in nanoseconds. */
  const SATURATION := 31
  const CLEANUP_PERIOD := 256
  const DEFAULT_BASE := 250_000_000
  const DEFAULT_MAX := 30_000_000_000
  const DEFAULT_RETENTION := 3_600_000_000_000

  datatype Attempt = Attempt(failures: nat, next: int, lastUpdate: int)

  function Doubled(base: nat, times: nat): nat {
    if times == 0 then base else 2 * Doubled(base, times - 1)
  }

  function Min(a: nat, b: nat): nat {
    if a < b then a else b
  }

  /** What back-off is for: exponential in the number of failures, up to a ceiling. */
  function Ideal(base: nat, ceiling: nat, failures: nat): nat {
    if failures == 0 then 0 else Min(ceiling, Doubled(base, failures - 1))
  }

  /** The one case the doubling loop gets wrong: it rounds half of an odd ceiling down and then overshoots by one. */
  predicate Overshoots(base: nat, ceiling: nat, failures: nat) {
    failures >= 2 && Doubled(base, failures - 1) + 1 == ceiling
  }

  lemma {:induction false} DoubledGrows(base: nat, a: nat, b: nat)
    requires a <= b
    ensures Doubled(base, a) <= Doubled(base, b)
    ensures a < b ==> 2 * Doubled(base, a) <= Doubled(base, b)
    decreases b
  {
    if a < b {
      DoubledGrows(base, a, b - 1);
    }
  }

  /** An even ceiling never overshoots. */
  lemma EvenCeilingIsExact(base: nat, ceiling: nat, failures: nat)
    requires ceiling % 2 == 0
    ensures !Overshoots(base, ceiling, failures)
  {
  }

  /** Counting stops at 31; nobody can tell if the ceiling has been reached by then. */
  lemma SaturationIsInvisible(base: nat, ceiling: nat, failures: nat)
    requires failures >= SATURATION
    ensures Ideal(base, ceiling, SATURATION) == Ideal(base, ceiling, failures)
       <==> Doubled(base, SATURATION - 1) >= ceiling || Doubled(base, SATURATION - 1) == Doubled(base, failures - 1)
  {
    DoubledGrows(base, SATURATION - 1, failures - 1);
  }

  lemma DefaultsReachTheCeiling(failures: nat)
    requires failures >= SATURATION
    ensures Ideal(DEFAULT_BASE, DEFAULT_MAX, failures) == Ideal(DEFAULT_BASE, DEFAULT_MAX, SATURATION) == DEFAULT_MAX
  {
    assert Doubled(DEFAULT_BASE, 7) == 128 * DEFAULT_BASE by {
      assert Doubled(DEFAULT_BASE, 3) == 8 * DEFAULT_BASE;
      assert Doubled(DEFAULT_BASE, 5) == 32 * DEFAULT_BASE;
    }
    DoubledGrows(DEFAULT_BASE, 7, SATURATION - 1);
    DoubledGrows(DEFAULT_BASE, 7, failures - 1);
  }

  /** The doubling loop of Failure. */
  method Delay(base: nat, ceiling: nat, failures: nat) returns (delay: nat)
    requires failures >= 1
    ensures delay <= ceiling
    ensures delay == Ideal(base, ceiling, failures) <==> !Overshoots(base, ceiling, failures)
  {
    delay := base;
    var index := 1;
    while index < failures
      invariant 1 <= index <= failures
      invariant delay == Doubled(base, index - 1)
      invariant index > 1 ==> Doubled(base, index - 2) < ceiling / 2
    {
      if delay >= ceiling / 2 {
        DoubledGrows(base, index - 1, failures - 1);
        return ceiling;
      }
      delay := delay * 2;
      index := index + 1;
    }
    if delay > ceiling {
      delay := ceiling;
    }
  }

  class Limiter {
    const base: nat
    const ceiling: nat
    const retention: nat
    var attempts: map<string, Attempt>
    var updates: nat
    /** The failures of a key since its last success, its last expiry, or ever: what `failures` would be unsaturated. */
    ghost var streak: map<string, nat>

    constructor (base: nat, ceiling: nat, retention: nat)
      ensures this.base == base && this.ceiling == ceiling && this.retention == retention
      ensures Valid() && attempts == map[]
    {
      this.base, this.ceiling, this.retention := base, ceiling, retention;
      this.attempts, this.updates, this.streak := map[], 0, map[];
    }

    ghost predicate Valid()
      reads this
    {
      && streak.Keys == attempts.Keys
      && (forall key :: key in attempts ==>
            && streak[key] >= 1 && attempts[key].failures == Min(streak[key], SATURATION)
            && attempts[key].lastUpdate <= attempts[key].next <= attempts[key].lastUpdate + ceiling)
    }

    /** RetryAfter at a given time. */
    function Wait(key: string, now: int): (wait: nat)
      reads this
    {
      if key !in attempts || now >= attempts[key].next then 0 else attempts[key].next - now
    }

    method RetryAfter(key: string, now: int) returns (wait: nat)
      ensures wait == Wait(key, now)
      ensures Valid() && key in attempts && attempts[key].lastUpdate <= now ==> wait <= ceiling
    {
      if key !in attempts || now >= attempts[key].next {
        return 0;
      }
      wait := attempts[key].next - now;
    }

    /**
     * One more failure. The delay is the ideal one for the whole streak exactly when the ceiling is not overshot and
     * saturation does not show; every other key waits as long as before, now and later.
     */
    method Failure(key: string, now: int) returns (delay: nat)
      requires Valid()
      modifies this
      ensures Valid() && updates == old(updates) + 1
      ensures delay <= ceiling
      ensures var failures := Count(old(streak), key) + 1;
        failures <= SATURATION ==> (delay == Ideal(base, ceiling, failures) <==> !Overshoots(base, ceiling, failures))
      ensures ceiling % 2 == 0 && Doubled(base, SATURATION - 1) >= ceiling ==>
        delay == Ideal(base, ceiling, Count(old(streak), key) + 1)
      ensures key in attempts ==> attempts[key].next == now + delay && attempts[key].lastUpdate == now
      ensures Wait(key, now) == delay
      // from then on the rest of the delay, and nothing once it is over
      ensures forall t :: Wait(key, t) == (if t < now + delay then now + delay - t else 0)
      ensures ceiling <= retention ==> forall k, t :: k != key && now <= t ==> Wait(k, t) == old(Wait(k, t))
      ensures forall k :: k != key && k in attempts ==> k in old(attempts) && attempts[k] == old(attempts)[k] && streak[k] == old(streak)[k]
      ensures updates % CLEANUP_PERIOD != 0 ==> attempts.Keys == old(attempts).Keys + {key}
      ensures updates % CLEANUP_PERIOD == 0 ==> forall k :: k in attempts ==> now - attempts[k].lastUpdate <= retention
    {
      hide Doubled, Ideal, Overshoots;
      ghost var failures := Count(streak, key) + 1;
      var stored;
      stored, delay := Earn(key);
      Record(key, Attempt(stored, now + delay, now), failures);
      if updates % CLEANUP_PERIOD == 0 {
        Cleanup(now);
      }
    }

    method Record(key: string, attempt: Attempt, ghost failures: nat)
      requires Valid() && failures >= 1 && attempt.failures == Min(failures, SATURATION)
      requires attempt.lastUpdate <= attempt.next <= attempt.lastUpdate + ceiling
      modifies this
      ensures Valid() && attempts == old(attempts)[key := attempt] && streak == old(streak)[key := failures]
      ensures updates == old(updates) + 1
      ensures forall k, t :: k != key ==> Wait(k, t) == old(Wait(k, t))
    {
      attempts := attempts[key := attempt];
      streak := streak[key := failures];
      updates := updates + 1;
    }

    /** The count a further failure is stored with, and its delay. */
    method Earn(key: string) returns (stored: nat, delay: nat)
      requires Valid()
      ensures var failures := Count(streak, key) + 1;
        && stored == Min(failures, SATURATION)
        && (failures <= SATURATION ==> (delay == Ideal(base, ceiling, failures) <==> !Overshoots(base, ceiling, failures)))
      ensures delay <= ceiling
      ensures ceiling % 2 == 0 && Doubled(base, SATURATION - 1) >= ceiling ==>
        delay == Ideal(base, ceiling, Count(streak, key) + 1)
    {
      ghost var failures := Count(streak, key) + 1;
      stored := if key in attempts then attempts[key].failures else 0;
      if stored < SATURATION {
        stored := stored + 1;
      }
      delay := Delay(base, ceiling, stored);
      if ceiling % 2 == 0 && Doubled(base, SATURATION - 1) >= ceiling {
        EvenCeilingIsExact(base, ceiling, stored);
        if failures > SATURATION {
          SaturationIsInvisible(base, ceiling, failures);
        }
      }
    }

    /** Forgetting is invisible from the moment of the cleanup on, if the retention covers the longest delay. */
    method Cleanup(now: int)
      requires Valid()
      modifies `attempts, `streak
      ensures Valid()
      ensures forall key :: key in attempts <==> key in old(attempts) && now - old(attempts)[key].lastUpdate <= retention
      ensures forall key :: key in attempts ==> attempts[key] == old(attempts)[key] && streak[key] == old(streak)[key]
      ensures ceiling <= retention ==> forall key, t :: now <= t ==> Wait(key, t) == old(Wait(key, t))
    {
      var keys := attempts.Keys;
      while keys != {}
        invariant keys <= old(attempts).Keys && Valid()
        invariant forall key :: key in attempts <==>
          key in old(attempts) && (key in keys || now - old(attempts)[key].lastUpdate <= retention)
        invariant forall key :: key in attempts ==> attempts[key] == old(attempts)[key] && streak[key] == old(streak)[key]
        decreases keys
      {
        var key :| key in keys;
        if now - attempts[key].lastUpdate > retention {
          attempts, streak := attempts - {key}, streak - {key};
        }
        keys := keys - {key};
      }
    }

    method Success(key: string)
      requires Valid()
      modifies `attempts, `streak
      ensures Valid() && key !in attempts && forall t :: Wait(key, t) == 0
      ensures forall k :: k != key ==> (k in attempts <==> k in old(attempts))
      ensures forall k :: k in attempts ==> attempts[k] == old(attempts)[k] && streak[k] == old(streak)[k]
    {
      attempts, streak := attempts - {key}, streak - {key};
    }
  }

  ghost function Count(streak: map<string, nat>, key: string): nat {
    if key in streak then streak[key] else 0
  }
}
