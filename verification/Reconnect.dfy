/**
 The reconnect loop shared by the transports (`run_with_reconnect` in `src/transport/send_recv.rs`), run against
 scripts of send and rebuild outcomes.  A script that runs out leaves the loop in the middle of a longer run.
 */
module Reconnect {
  import opened Wire
  import opened Errors

  const U32_MODULUS := 0x1_0000_0000

  predicate IsRetryable(e: ModbusError) {
    e.Connection? || e.Serial?
  }

  datatype Event = Send(outcome: Outcome) | Rebuild(ok: bool)

  datatype Exit =
    | Returned(outcome: Outcome)
    | RetriesExceeded(last: ModbusError)
    | RebuildFailed
    | ScriptEnded

  /** The failure counter, one up, in 32 bits. */
  function Bumped(failures: nat): nat {
    (failures + 1) % U32_MODULUS
  }

  /** The loop from counters (failures, rebuildFailures) on: how it exits and what it did on the way. */
  function Run(maxRetries: nat, failures: nat, rebuildFailures: nat, sends: seq<Outcome>, rebuilds: seq<bool>)
    : (Exit, seq<Event>)
    decreases |sends|
  {
    if sends == [] then (ScriptEnded, [])
    else
      var sent := Send(sends[0]);
      if sends[0].Ok? || !IsRetryable(sends[0].error) then (Returned(sends[0]), [sent])
      else
        var failures' := Bumped(failures);
        if maxRetries > 0 && failures' > maxRetries then (RetriesExceeded(sends[0].error), [sent])
        else if rebuilds == [] then (ScriptEnded, [sent])
        else if !rebuilds[0] && rebuildFailures + 1 >= 3 then (RebuildFailed, [sent, Rebuild(false)])
        else
          var rest := Run(maxRetries, failures', if rebuilds[0] then 0 else rebuildFailures + 1, sends[1..], rebuilds[1..]);
          (rest.0, [sent, Rebuild(rebuilds[0])] + rest.1)
  }

  // One round of the loop at script positions i and j.
  lemma {:induction false} RunRound(
      m: nat, failures: nat, rf: nat, sends: seq<Outcome>, rebuilds: seq<bool>, i: nat, j: nat)
    requires i < |sends| && j <= |rebuilds|
    ensures Run(m, failures, rf, sends[i..], rebuilds[j..])
         == var sent, failures' := Send(sends[i]), Bumped(failures);
            if sends[i].Ok? || !IsRetryable(sends[i].error) then (Returned(sends[i]), [sent])
            else if m > 0 && failures' > m then (RetriesExceeded(sends[i].error), [sent])
            else if j == |rebuilds| then (ScriptEnded, [sent])
            else if !rebuilds[j] && rf + 1 >= 3 then (RebuildFailed, [sent, Rebuild(false)])
            else
              var rest := Run(m, failures', if rebuilds[j] then 0 else rf + 1, sends[i + 1..], rebuilds[j + 1..]);
              (rest.0, [sent, Rebuild(rebuilds[j])] + rest.1)
  {
    hide IsRetryable, Bumped;
    assert sends[i..][0] == sends[i] && sends[i..][1..] == sends[i + 1..];
    if j < |rebuilds| {
      assert rebuilds[j..][0] == rebuilds[j] && rebuilds[j..][1..] == rebuilds[j + 1..];
    }
  }

  lemma {:induction false} Regroup(before: seq<Event>, sent: Event, rebuilt: Event, rest: seq<Event>)
    ensures before + [sent] + [rebuilt] == before + [sent, rebuilt]
    ensures before + ([sent, rebuilt] + rest) == (before + [sent] + [rebuilt]) + rest
  {
  }

  lemma {:induction false} RunDone(m: nat, failures: nat, rf: nat, rebuilds: seq<bool>)
    ensures Run(m, failures, rf, [], rebuilds) == (ScriptEnded, [])
  {
  }

  /** The loop itself.  Without a reconnect configuration the first outcome is returned as it is. */
  method RunWithReconnect(config: Option<nat>, sends: seq<Outcome>, rebuilds: seq<bool>)
    returns (exit: Exit, events: seq<Event>)
    ensures config.Some? ==> (exit, events) == Run(config.value, 0, 0, sends, rebuilds)
    ensures config.None? && sends != [] ==> exit == Returned(sends[0]) && events == [Send(sends[0])]
  {
    if config.None? {
      if sends == [] {
        return ScriptEnded, [];
      }
      return Returned(sends[0]), [Send(sends[0])];
    }
    hide IsRetryable, Run, Bumped;
    var maxRetries := config.value;
    var failures, rebuildFailures := 0, 0;
    var i, j := 0, 0;
    events := [];
    ghost var whole := Run(maxRetries, 0, 0, sends, rebuilds);
    assert sends[0..] == sends && rebuilds[0..] == rebuilds;
    while i < |sends|
      invariant 0 <= i <= |sends| && 0 <= j <= |rebuilds| && rebuildFailures >= 0 && failures >= 0
      invariant var rest := Run(maxRetries, failures, rebuildFailures, sends[i..], rebuilds[j..]);
                whole.0 == rest.0 && whole.1 == events + rest.1
      decreases |sends| - i
    {
      ghost var before := events;
      RunRound(maxRetries, failures, rebuildFailures, sends, rebuilds, i, j);
      events := events + [Send(sends[i])];
      if sends[i].Ok? {
        return Returned(sends[i]), events;
      }
      if !IsRetryable(sends[i].error) {
        return Returned(sends[i]), events;
      }
      failures := Bumped(failures);
      if maxRetries > 0 && failures > maxRetries {
        return RetriesExceeded(sends[i].error), events;
      }
      if j == |rebuilds| {
        return ScriptEnded, events;
      }
      var rebuilt := rebuilds[j];
      events := events + [Rebuild(rebuilt)];
      ghost var rf := if rebuilt then 0 else rebuildFailures + 1;
      Regroup(before, Send(sends[i]), Rebuild(rebuilt),
              Run(maxRetries, failures, rf, sends[i + 1..], rebuilds[j + 1..]).1);
      i, j := i + 1, j + 1;
      if !rebuilt {
        rebuildFailures := rebuildFailures + 1;
        if rebuildFailures >= 3 {
          return RebuildFailed, events;
        }
        continue;
      }
      rebuildFailures := 0;
    }
    RunDone(maxRetries, failures, rebuildFailures, rebuilds[j..]);
    assert sends[i..] == [] && events + [] == events;
    exit := ScriptEnded;
  }

  // ── What every run satisfies ─────────────────────────────────────────────

  function Sends(events: seq<Event>): nat {
    if events == [] then 0 else (if events[0].Send? then 1 else 0) + Sends(events[1..])
  }

  function Rebuilds(events: seq<Event>): nat {
    if events == [] then 0 else (if events[0].Rebuild? then 1 else 0) + Rebuilds(events[1..])
  }

  /** How many of the latest rebuilds failed in a row, `start` being the count before these events. */
  function FailedInARow(start: nat, events: seq<Event>): nat
    decreases |events|
  {
    if events == [] then start
    else match events[0]
         case Send(_) => FailedInARow(start, events[1..])
         case Rebuild(ok) => FailedInARow(if ok then 0 else start + 1, events[1..])
  }

  lemma {:induction false} Rounds(sent: Event, rebuilt: Event, rest: seq<Event>)
    requires sent.Send? && rebuilt.Rebuild?
    ensures Sends([sent, rebuilt] + rest) == 1 + Sends(rest)
    ensures Rebuilds([sent, rebuilt] + rest) == 1 + Rebuilds(rest)
    ensures forall start: nat :: FailedInARow(start, [sent, rebuilt] + rest)
                              == FailedInARow(if rebuilt.ok then 0 else start + 1, rest)
  {
    var all := [sent, rebuilt] + rest;
    assert all[1..] == [rebuilt] + rest && all[1..][1..] == rest;
  }

  /** With a retry limit, a run makes at most one more send than retries and no more rebuilds than retries. */
  lemma {:induction false} RetriesBounded(m: nat, failures: nat, rf: nat, sends: seq<Outcome>, rebuilds: seq<bool>)
    requires 0 < m < U32_MODULUS - 1 && failures <= m
    ensures var (exit, events) := Run(m, failures, rf, sends, rebuilds);
            && Sends(events) <= m + 1 - failures
            && Rebuilds(events) <= m - failures
            && (exit.RetriesExceeded? ==> Sends(events) == m + 1 - failures)
    decreases |sends|
  {
    assert failures < U32_MODULUS - 1 && Bumped(failures) == failures + 1;
    hide IsRetryable, Bumped;
    var (exit, events) := Run(m, failures, rf, sends, rebuilds);
    if |events| < 2 {
      assert |events| == 1 ==> events[1..] == [];
    } else {
      assert failures + 1 <= m;
      assert events == [events[0], events[1]] + events[2..];
      Rounds(events[0], events[1], events[2..]);
      if events[2..] != [] || !exit.RebuildFailed? {
        RetriesBounded(m, failures + 1, if rebuilds[0] then 0 else rf + 1, sends[1..], rebuilds[1..]);
      }
    }
  }

  /** At the largest limit the 32-bit failure counter can never exceed it, so the limit has no effect. */
  lemma {:induction false} LargestLimitNeverExceeded(
      failures: nat, rf: nat, sends: seq<Outcome>, rebuilds: seq<bool>)
    ensures !Run(U32_MODULUS - 1, failures, rf, sends, rebuilds).0.RetriesExceeded?
    decreases |sends|
  {
    if sends != [] && rebuilds != [] {
      LargestLimitNeverExceeded(
        Bumped(failures), if rebuilds[0] then 0 else rf + 1, sends[1..], rebuilds[1..]);
    }
  }

  /** n attempts that all fail on a lost connection. */
  function LostConnections(n: nat): (sends: seq<Outcome>)
    ensures |sends| == n && forall i :: 0 <= i < n ==> sends[i] == Err(Connection)
  {
    if n == 0 then [] else [Err(Connection)] + LostConnections(n - 1)
  }

  function GoodRebuilds(n: nat): (rebuilds: seq<bool>)
    ensures |rebuilds| == n && forall i :: 0 <= i < n ==> rebuilds[i]
  {
    if n == 0 then [] else [true] + GoodRebuilds(n - 1)
  }

  /** So at that limit, as at limit 0, a run of lost connections and good rebuilds goes on sending for ever. */
  lemma {:induction false} LargestLimitUnbounded(m: nat, failures: nat, rf: nat, n: nat)
    requires m == 0 || m == U32_MODULUS - 1
    ensures Sends(Run(m, failures, rf, LostConnections(n), GoodRebuilds(n)).1) == n
    decreases n
  {
    if n > 0 {
      LargestLimitUnbounded(m, Bumped(failures), 0, n - 1);
      assert LostConnections(n)[1..] == LostConnections(n - 1) && GoodRebuilds(n)[1..] == GoodRebuilds(n - 1);
      Rounds(Send(Err(Connection)), Rebuild(true), Run(m, Bumped(failures), 0, LostConnections(n - 1), GoodRebuilds(n - 1)).1);
    }
  }

  /** No send follows three failed rebuilds in a row, and the rebuild error is exactly that situation. */
  lemma {:induction false} RebuildGuard(m: nat, failures: nat, rf: nat, sends: seq<Outcome>, rebuilds: seq<bool>)
    requires rf < 3
    ensures var (exit, events) := Run(m, failures, rf, sends, rebuilds);
            && (forall i :: 0 <= i < |events| && events[i].Send? ==> FailedInARow(rf, events[..i]) < 3)
            && (exit.RebuildFailed? <==> FailedInARow(rf, events) == 3)
            && FailedInARow(rf, events) <= 3
    decreases |sends|
  {
    var (exit, events) := Run(m, failures, rf, sends, rebuilds);
    if |events| < 2 {
      assert |events| == 1 ==> events[1..] == [];
    } else {
      var sent, rebuilt := events[0], events[1];
      var rf' := if rebuilt.ok then 0 else rf + 1;
      var rest := events[2..];
      assert events == [sent, rebuilt] + rest;
      Rounds(sent, rebuilt, rest);
      if rf' < 3 {
        RebuildGuard(m, (failures + 1) % U32_MODULUS, rf', sends[1..], rebuilds[1..]);
      }
      forall i | 0 <= i < |events| && events[i].Send?
        ensures FailedInARow(rf, events[..i]) < 3
      {
        if i >= 2 {
          assert events[..i] == [sent, rebuilt] + rest[..i - 2];
          Rounds(sent, rebuilt, rest[..i - 2]);
          assert rest[i - 2] == events[i];
        }
      }
    }
  }

  /** Sends and rebuilds alternate: their difference tells how the loop was left. */
  lemma {:induction false} ExitBalance(m: nat, failures: nat, rf: nat, sends: seq<Outcome>, rebuilds: seq<bool>)
    ensures var (exit, events) := Run(m, failures, rf, sends, rebuilds);
            && (exit.Returned? || exit.RetriesExceeded? ==> Sends(events) == Rebuilds(events) + 1)
            && (exit.RebuildFailed? ==> Sends(events) == Rebuilds(events))
            && Rebuilds(events) <= Sends(events) <= Rebuilds(events) + 1
    decreases |sends|
  {
    var (exit, events) := Run(m, failures, rf, sends, rebuilds);
    if |events| < 2 {
      assert |events| == 1 ==> events[1..] == [];
    } else {
      assert events == [events[0], events[1]] + events[2..];
      Rounds(events[0], events[1], events[2..]);
      if events[2..] != [] || !exit.RebuildFailed? {
        ExitBalance(
          m, (failures + 1) % U32_MODULUS, if rebuilds[0] then 0 else rf + 1, sends[1..], rebuilds[1..]);
      }
    }
  }

  predicate Final(outcome: Outcome) {
    outcome.Ok? || !IsRetryable(outcome.error)
  }

  /** A success or a non-retryable error ends the run at once and is what the run returns. */
  lemma {:induction false} FinalOutcomesEnd(m: nat, failures: nat, rf: nat, sends: seq<Outcome>, rebuilds: seq<bool>)
    ensures var (exit, events) := Run(m, failures, rf, sends, rebuilds);
            && (forall i :: 0 <= i < |events| && events[i].Send? && Final(events[i].outcome) ==>
                  i == |events| - 1 && exit == Returned(events[i].outcome))
            && (exit.Returned? ==> events != [] && events[|events| - 1] == Send(exit.outcome) && Final(exit.outcome))
    decreases |sends|
  {
    var (exit, events) := Run(m, failures, rf, sends, rebuilds);
    if |events| >= 2 && !(events[2..] == [] && exit.RebuildFailed?) {
      var rf' := if rebuilds[0] then 0 else rf + 1;
      FinalOutcomesEnd(m, (failures + 1) % U32_MODULUS, rf', sends[1..], rebuilds[1..]);
      var rest := Run(m, (failures + 1) % U32_MODULUS, rf', sends[1..], rebuilds[1..]).1;
      assert forall i :: 2 <= i < |events| ==> events[i] == rest[i - 2];
    }
  }
}
