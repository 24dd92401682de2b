/** The reconnect loop of a capture session (`run_until_stopped`) and its backoff. */
module Reconnect {
  import opened Numbers

  datatype Config = Config(maxReconnects: nat, delay: real, backoffFactor: real, maxDelay: real)

  /** One turn of the loop, as the environment decides it: where a stop request first shows, and whether a
      reconnect works if it comes to that. */
  datatype Turn = Turn(stop: StopPoint, reconnects: bool)

  datatype StopPoint = BeforeWait | DuringWait | DuringDelay | AfterDelay | NoStop

  datatype Attempt = Attempt(delay: real, succeeded: bool)

  function Pow(f: real, k: nat): real {
    if k == 0 then 1.0 else Times(Pow(f, k - 1), f)
  }

  function Times(a: real, b: real): real {
    a * b
  }

  /** The delay as the loop computes it, after `k` failures in a row. */
  function Backoff(c: Config, k: nat): real {
    if k == 0 then c.delay else MinReal(Times(Backoff(c, k - 1), c.backoffFactor), c.maxDelay)
  }

  /** The delay in closed form. */
  function CappedPower(c: Config, k: nat): real {
    if k == 0 then c.delay else MinReal(Times(c.delay, Pow(c.backoffFactor, k)), c.maxDelay)
  }

  /** How many attempts at the end of the list failed in a row. */
  function FailuresInARow(attempts: seq<Attempt>): nat {
    if attempts == [] || attempts[|attempts| - 1].succeeded then 0 else 1 + FailuresInARow(attempts[..|attempts| - 1])
  }

  /** Each attempt belongs to a turn without a stop request, and waited as long as the failures before it call for. */
  predicate MadeAsDue(c: Config, turns: seq<Turn>, attempts: seq<Attempt>) {
    && |attempts| <= |turns|
    && forall i | 0 <= i < |attempts| ::
         && turns[i].stop == NoStop && attempts[i].succeeded == turns[i].reconnects
         && attempts[i].delay == Backoff(c, FailuresInARow(attempts[..i]))
  }

  lemma OneMoreAttempt(c: Config, turns: seq<Turn>, attempts: seq<Attempt>, a: Attempt)
    requires MadeAsDue(c, turns, attempts) && |attempts| < |turns|
    requires turns[|attempts|] == Turn(NoStop, a.succeeded) && a.delay == Backoff(c, FailuresInARow(attempts))
    ensures MadeAsDue(c, turns, attempts + [a])
    ensures FailuresInARow(attempts + [a]) == if a.succeeded then 0 else 1 + FailuresInARow(attempts)
  {
    hide Backoff, FailuresInARow;
    var longer := attempts + [a];
    assert longer[..|attempts|] == attempts;
    forall i | 0 <= i < |attempts|
      ensures longer[..i] == attempts[..i]
    {
    }
    assert FailuresInARow(longer) == if a.succeeded then 0 else 1 + FailuresInARow(attempts) by {
      LastFailure(longer);
    }
  }

  lemma LastFailure(attempts: seq<Attempt>)
    requires attempts != []
    ensures FailuresInARow(attempts) ==
            if attempts[|attempts| - 1].succeeded then 0 else 1 + FailuresInARow(attempts[..|attempts| - 1])
  {
  }

  /** At most `maxReconnects` attempts are made, the i-th in the i-th turn, and none in or after a turn that sees a stop
      request; each waits for the delay that the failures in a row before it call for. */
  method RunUntilStopped(c: Config, turns: seq<Turn>) returns (attempts: seq<Attempt>, limitReached: bool)
    requires |turns| == c.maxReconnects
    ensures |attempts| <= c.maxReconnects
    ensures limitReached <==> |attempts| == c.maxReconnects
    ensures forall i | 0 <= i < |attempts| :: turns[i].stop == NoStop && attempts[i].succeeded == turns[i].reconnects
    ensures |attempts| < c.maxReconnects ==> turns[|attempts|].stop != NoStop
    ensures forall i | 0 <= i < |attempts| :: attempts[i].delay == Backoff(c, FailuresInARow(attempts[..i]))
  {
    hide Times, MinReal;
    attempts := [];
    var reconnectDelay := c.delay;
    for attempt := 0 to c.maxReconnects
      invariant |attempts| == attempt
      invariant reconnectDelay == Backoff(c, FailuresInARow(attempts))
      invariant MadeAsDue(c, turns, attempts)
    {
      var turn := turns[attempt];
      if turn.stop == BeforeWait {
        return attempts, false;
      }
      // the receive task or a poll task ends, or the stop event is set
      if turn.stop == DuringWait {
        return attempts, false;
      }
      // the stop event is waited for with `reconnectDelay` as the timeout
      if turn.stop == DuringDelay {
        return attempts, false;
      }
      if turn.stop == AfterDelay {
        return attempts, false;
      }
      var made := Attempt(reconnectDelay, turn.reconnects);
      OneMoreAttempt(c, turns, attempts, made);
      attempts := attempts + [made];
      if turn.reconnects {
        reconnectDelay := c.delay;
      } else {
        reconnectDelay := MinReal(Times(reconnectDelay, c.backoffFactor), c.maxDelay);
      }
    }
    limitReached := true;
  }

  // ---- the closed form ----

  predicate Sensible(c: Config) {
    c.delay >= 0.0 && c.backoffFactor >= 0.0 && c.maxDelay >= 0.0
  }

  lemma TimesMonotonic(a: real, b: real, f: real)
    requires f >= 0.0 && a <= b
    ensures Times(a, f) <= Times(b, f)
  {
  }

  lemma PowNonNegative(f: real, k: nat)
    requires f >= 0.0
    ensures Pow(f, k) >= 0.0
  {
  }

  lemma TimesAssociative(a: real, b: real, c: real)
    ensures Times(Times(a, b), c) == Times(a, Times(b, c))
  {
  }

  /** With a factor of 1 or more, or a first step that stays within the cap, every delay is the capped power. */
  lemma {:induction false} BackoffIsCappedPower(c: Config, k: nat)
    requires Sensible(c)
    requires c.backoffFactor >= 1.0 || Times(c.delay, c.backoffFactor) <= c.maxDelay || c.maxDelay == 0.0
    ensures Backoff(c, k) == CappedPower(c, k)
    ensures c.backoffFactor < 1.0 && Times(c.delay, c.backoffFactor) <= c.maxDelay && k > 0 ==>
              Times(c.delay, Pow(c.backoffFactor, k)) <= c.maxDelay
  {
    var d, f, m := c.delay, c.backoffFactor, c.maxDelay;
    if k == 1 {
      assert Pow(f, 1) == f;
    } else if k > 1 {
      BackoffIsCappedPower(c, k - 1);
      var power := Times(d, Pow(f, k - 1));
      TimesAssociative(d, Pow(f, k - 1), f);
      PowNonNegative(f, k - 1);
      if f >= 1.0 {
        TimesAtLeast(m, f);
        if power > m {
          TimesMonotonic(m, power, f);
        }
      } else {
        TimesZero(d, Pow(f, k - 1), f);
        TimesAtMost(power, f);
      }
    }
  }

  lemma TimesAtLeast(m: real, f: real)
    requires m >= 0.0 && f >= 1.0
    ensures Times(m, f) >= m
  {
  }

  lemma TimesAtMost(x: real, f: real)
    requires 0.0 <= f < 1.0 && x >= 0.0
    ensures 0.0 <= Times(x, f) <= x
  {
    TimesMonotonic(0.0, x, 1.0 - f);
    assert Times(0.0, 1.0 - f) == 0.0;
    assert Times(x, f) == x - Times(x, 1.0 - f);
    TimesMonotonic(0.0, x, f);
    assert Times(0.0, f) == 0.0;
  }

  lemma TimesZero(d: real, p: real, f: real)
    requires d >= 0.0 && p >= 0.0 && f >= 0.0
    ensures Times(0.0, f) == 0.0 && Times(d, p) >= 0.0 && Times(Times(d, p), f) >= 0.0
  {
  }

  /** The condition is needed: a factor below 1 that starts from above the cap shrinks the cap itself. */
  lemma CappedShrinks(c: Config)
    requires Sensible(c)
    requires c.backoffFactor < 1.0 && Times(c.delay, c.backoffFactor) > c.maxDelay > 0.0
    ensures Backoff(c, 2) != CappedPower(c, 2)
  {
    var d, f, m := c.delay, c.backoffFactor, c.maxDelay;
    assert Backoff(c, 1) == m;
    assert Pow(f, 1) == Times(Pow(f, 0), f) == f;
    assert Pow(f, 2) == Times(Pow(f, 1), f);
    TimesAssociative(d, f, f);
    TimesStrict(m, Times(d, f), f);
  }

  lemma TimesStrict(m: real, x: real, f: real)
    requires 0.0 < m < x && 0.0 <= f < 1.0
    ensures Times(m, f) < m
    ensures f > 0.0 ==> Times(m, f) < Times(x, f)
  {
  }

  /** Delays are capped powers after every number of failures exactly when the factor is at least 1, or the first
      backed-off delay is within the cap, or the cap is 0. */
  lemma CappedPowerExactly(c: Config)
    requires Sensible(c)
    ensures (forall k: nat :: Backoff(c, k) == CappedPower(c, k)) <==>
            c.backoffFactor >= 1.0 || Times(c.delay, c.backoffFactor) <= c.maxDelay || c.maxDelay == 0.0
  {
    if c.backoffFactor >= 1.0 || Times(c.delay, c.backoffFactor) <= c.maxDelay || c.maxDelay == 0.0 {
      forall k: nat
        ensures Backoff(c, k) == CappedPower(c, k)
      {
        BackoffIsCappedPower(c, k);
      }
    } else {
      CappedShrinks(c);
    }
  }
}
