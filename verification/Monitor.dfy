/** `ConnectionMonitor`: its methods up to and after the awaited callback, and the statistics it reports. */
module Monitor {
  import opened Options
  import P = MonitorProtocol
  import opened Statistics

  datatype Stats = Stats(connections: nat, errors: nat, rotations: nat, windowErrors: nat,
                         averageLatency: real, p95Latency: real)

  ghost function SuccessLatencies(records: seq<P.Record>): seq<real> {
    if records == [] then []
    else (if records[0].outcome == P.Success then [records[0].latency] else []) + SuccessLatencies(records[1..])
  }

  /** The sample is made of the latencies of the successes, one for each record that is no error. */
  lemma {:induction false} SampleOfSuccesses(records: seq<P.Record>, x: real)
    ensures |SuccessLatencies(records)| == |records| - P.ErrorCount(records)
    ensures x in SuccessLatencies(records) <==> P.Record(P.Success, x) in records
  {
    if records != [] {
      SampleOfSuccesses(records[1..], x);
      assert records == [records[0]] + records[1..];
    }
  }

  class ConnectionMonitor {
    const config: P.Config
    var window: seq<P.Record>
    var totalConnections: nat
    var totalErrors: nat
    var totalRotations: nat
    var isShutdown: bool
    // rotations whose callback is being awaited
    ghost var inFlight: nat

    ghost function State(): P.State
      reads this
    {
      P.State(window, totalConnections, totalErrors, totalRotations, isShutdown, inFlight)
    }

    constructor (config: P.Config)
      ensures this.config == config && State() == P.INITIAL
    {
      this.config := config;
      window, totalConnections, totalErrors, totalRotations, isShutdown := [], 0, 0, 0, false;
      inFlight := 0;
    }

    method Append(record: P.Record)
      modifies `window
      ensures window == P.Append(old(window), record, config.Capacity())
    {
      if |window| >= config.Capacity() {
        window := window[|window| - config.Capacity() + 1..];
      }
      window := window + [record];
    }

    method WindowErrorCount() returns (count: nat)
      ensures count == P.ErrorCount(window)
    {
      count := 0;
      for k := 0 to |window|
        invariant count + P.ErrorCount(window[k..]) == P.ErrorCount(window)
      {
        assert window[k..][1..] == window[k + 1..];
        if window[k].outcome != P.Success {
          count := count + 1;
        }
      }
    }

    method RecordSuccess(latency: real)
      modifies this
      ensures State() == P.Next(config, old(State()), P.RecordSuccess(latency))
    {
      if !config.enabled {
        return;
      }
      Append(P.Record(P.Success, latency));
      totalConnections := totalConnections + 1;
    }

    /** `record_error` and `_trigger_rotation` up to the await of the callback; true if they get that far. */
    method RecordError(outcome: P.Outcome) returns (callbackStarted: bool)
      requires outcome != P.Success
      modifies this
      ensures State() == P.Next(config, old(State()), P.RecordError(outcome))
      ensures callbackStarted <==> inFlight > old(inFlight)
    {
      if !config.enabled {
        return false;
      }
      Append(P.Record(outcome, 0.0));
      totalConnections := totalConnections + 1;
      totalErrors := totalErrors + 1;
      var errorCount := WindowErrorCount();
      callbackStarted := false;
      if errorCount >= config.errorThreshold {
        if isShutdown {
          window := [];
          return;
        }
        totalRotations := totalRotations + 1;
        if config.hasCallback {
          inFlight := inFlight + 1;
          return true;
        }
        window := [];
      }
    }

    /** What `_trigger_rotation` does once the callback returned or raised an Exception. */
    method CallbackDone()
      requires inFlight > 0
      modifies this
      ensures State() == P.Next(config, old(State()), P.CallbackDone)
    {
      inFlight := inFlight - 1;
      window := [];
    }

    method ResetAll()
      modifies this
      ensures State() == P.Next(config, old(State()), P.ResetAll)
    {
      window := [];
      totalConnections, totalErrors, totalRotations := 0, 0, 0;
    }

    method Shutdown()
      modifies this
      ensures State() == P.Next(config, old(State()), P.Shutdown)
    {
      isShutdown := true;
    }

    method CollectLatencies() returns (successes: seq<real>)
      ensures successes == SuccessLatencies(window)
    {
      successes := [];
      for k := 0 to |window|
        invariant successes + SuccessLatencies(window[k..]) == SuccessLatencies(window)
      {
        assert window[k..][1..] == window[k + 1..];
        if window[k].outcome == P.Success {
          successes := successes + [window[k].latency];
        }
      }
    }

    /** Totals as they stand; the average and the 95th percentile are those of the latencies of the successes
        in the window, and 0 without any. */
    method GetStats() returns (stats: Stats)
      ensures stats.connections == totalConnections && stats.errors == totalErrors && stats.rotations == totalRotations
      ensures stats.windowErrors == P.ErrorCount(window)
      ensures var sample := SuccessLatencies(window);
              if sample == [] then stats.averageLatency == stats.p95Latency == 0.0
              else
                && IsPercentile95(sample, stats.p95Latency)
                && stats.averageLatency * |sample| as real == Sum(sample)
                && Sort(sample)[0] <= stats.averageLatency <= Sort(sample)[|sample| - 1]
    {
      hide Sort, Sum, SuccessLatencies, P.ErrorCount, IsPercentile95;
      var windowErrors := WindowErrorCount();
      var successes := CollectLatencies();
      var avgLatency, p95Latency := 0.0, 0.0;
      if successes != [] {
        avgLatency := AverageOf(successes);
        p95Latency := Percentile95(successes);
        MeanBetween(successes);
      }
      stats := Stats(totalConnections, totalErrors, totalRotations, windowErrors, avgLatency, p95Latency);
    }
  }
}
