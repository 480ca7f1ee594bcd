/**
 * The managed process supervisor: mutex-protected sections of Start, Stop, Abort, the per-child waiter and the bounded
 * recovery loop, interleaved with child exits in any order.
 */
module Supervisor {
  import opened Sequences

  const MAX_ATTEMPTS := 5
  const MAX_BACKOFF := 5_000
  const MAX_LOGS := 1000

  /** Where the recovery loop is: waiting for its backoff, inside the callback, or about to take itself down. */
  datatype LoopPc = Backing | Calling | Finishing

  /** `attempt` is the loop's counter, `calls` how often it has called the boundary, `begun` the exits seen at the last call. */
  datatype Loop = Loop(pc: LoopPc, attempt: nat, backoff: nat, calls: nat, begun: nat)

  datatype Event =
    | SetRecovery
    | StartFirst | StartSecond(cancelled: bool, spawns: bool)
    | StopFirst | Abort(attempt: nat)
    | Signal(generation: nat) | Die(generation: nat) | Observe(generation: nat)
    | Wake | Return(ok: bool) | Finish
    | Shutdown
    | Log(message: string)

  datatype StartResult = Started(generation: nat) | AlreadyActive | Refused | Proceeds

  class ManagedProcess {
    /** The generation of `command`, or 0 when there is none. */
    var commandGeneration: nat
    var nextGeneration: nat
    var active: bool
    var desired: bool
    var restarting: bool
    var exitGeneration: nat
    var recoveryGeneration: nat
    var recoveryPending: bool
    var recovery: bool
    var shutdown: bool
    const backoff: nat
    var logs: seq<string>

    /** The children the operating system is running, and those whose waiter has not yet seen them exit. */
    var alive: set<nat>
    var waiters: set<nat>
    /** The goroutines running restartLoop. */
    var loops: seq<Loop>
    /** Signals on their way: only a section that named the child sends one. */
    var signals: set<nat>
    ghost var logged: seq<string>

    constructor (backoff: nat)
      ensures Invariant() && this.backoff == backoff && !active && alive == {}
    {
      this.backoff := backoff;
      commandGeneration, nextGeneration, exitGeneration, recoveryGeneration := 0, 0, 0, 0;
      active, desired, restarting, recoveryPending, recovery, shutdown := false, false, false, false, false, false;
      logs, logged, alive, waiters, loops, signals := [], [], {}, {}, [], {};
    }

    /** At most one child lives, and only as the current command; its waiter is the only one. */
    ghost predicate OneChild()
      reads this
    {
      && (active <==> commandGeneration != 0) && commandGeneration <= nextGeneration
      && waiters == (if active then {commandGeneration} else {}) && alive <= waiters
      && (forall g :: g in signals ==> 1 <= g <= nextGeneration)
    }

    /** At most one recovery loop, alive exactly while `restarting` is set, and never beyond its fifth call. */
    ghost predicate OneLoop()
      reads this
    {
      && |loops| == (if restarting then 1 else 0)
      && (restarting ==>
            && loops[0].calls <= loops[0].attempt + (if loops[0].pc.Backing? then 0 else 1)
            && (loops[0].pc.Finishing? || loops[0].attempt < MAX_ATTEMPTS) && loops[0].attempt <= MAX_ATTEMPTS
            && loops[0].calls <= MAX_ATTEMPTS
            && loops[0].backoff <= (if backoff < MAX_BACKOFF then MAX_BACKOFF else backoff)
            && (loops[0].pc.Calling? ==> recoveryGeneration == loops[0].begun)
            && recoveryGeneration <= exitGeneration
            && (recoveryPending && loops[0].pc.Calling? ==> recoveryGeneration < exitGeneration))
    }

    ghost predicate Invariant()
      reads this
    {
      OneChild() && OneLoop() && |logs| <= MAX_LOGS && logs == LastOf(logged, MAX_LOGS)
    }

    method InstallRecovery() returns (ok: bool)
      requires Invariant()
      modifies `recovery
      ensures Invariant() && (ok <==> !active && !desired) && recovery == (old(recovery) || ok)
    {
      ok := !active && !desired;
      if ok {
        recovery := true;
      }
    }

    // -------------------------------------------------------------- start, stop, abort

    /** StartAttempt's first section; between the two the caller looks for a foreign Mihomo without the mutex. */
    method StartFirstSection() returns (result: StartResult)
      requires Invariant()
      modifies `desired
      ensures Invariant()
      ensures result == (if active then AlreadyActive else if shutdown then Refused else Proceeds)
      ensures desired == (old(desired) || active)
    {
      if active {
        desired := true;
        return AlreadyActive;
      }
      return if shutdown then Refused else Proceeds;
    }

    /** StartAttempt's second section. A failed start leaves the process desired. */
    method StartSecondSection(cancelled: bool, spawns: bool) returns (result: StartResult)
      requires Invariant()
      modifies `desired, `commandGeneration, `nextGeneration, `active, `alive, `waiters
      ensures Invariant() && desired
      ensures old(active) ==>
        result.AlreadyActive? && alive == old(alive) && waiters == old(waiters) && commandGeneration == old(commandGeneration) && active
      // a new child only where none was, under a generation no earlier child had
      ensures result.Started? ==>
        && !old(active) && old(alive) == {} && active
        && result.generation == commandGeneration && commandGeneration > old(nextGeneration) && alive == {commandGeneration}
      ensures result.Started? <==> !old(active) && !cancelled && spawns
      ensures result.Refused? ==> alive == old(alive) && !active
      ensures nextGeneration >= old(nextGeneration) && !result.Proceeds?
    {
      desired := true;
      if active {
        return AlreadyActive;
      }
      if cancelled || !spawns {
        return Refused;
      }
      nextGeneration := nextGeneration + 1;
      commandGeneration, active := nextGeneration, true;
      alive, waiters := alive + {nextGeneration}, waiters + {nextGeneration};
      return Started(commandGeneration);
    }

    /** Stop's section: whom to terminate. */
    method StopSection() returns (target: Option<nat>)
      requires Invariant()
      modifies `desired, `signals
      ensures Invariant() && !desired
      ensures target == (if active then Some(commandGeneration) else None)
      ensures signals == old(signals) + (if target.Some? then {target.value} else {})
    {
      desired := false;
      if !active {
        return None;
      }
      signals := signals + {commandGeneration};
      return Some(commandGeneration);
    }

    /** AbortAttempt's section: it terminates the child of its own attempt, or nobody. */
    method AbortSection(attempt: nat) returns (target: Option<nat>)
      requires Invariant()
      modifies `signals
      ensures Invariant()
      ensures target.Some? ==> target.value == attempt && active && commandGeneration == attempt
      ensures target.None? <==> attempt == 0 || attempt != commandGeneration || !active
      ensures signals == old(signals) + (if target.Some? then {attempt} else {})
    {
      if attempt == 0 || commandGeneration != attempt || !active {
        return None;
      }
      signals := signals + {attempt};
      return Some(attempt);
    }

    /** A signal arrives. Generations are never reused, so it cannot reach a later child. */
    method Deliver(generation: nat)
      requires Invariant() && generation in signals
      modifies `alive, `signals
      ensures Invariant() && alive == old(alive) - {generation}
      ensures forall g :: g != generation ==> (g in alive <==> g in old(alive))
    {
      alive, signals := alive - {generation}, signals - {generation};
    }

    method ChildDies(generation: nat)
      requires Invariant()
      modifies `alive
      ensures Invariant() && alive == old(alive) - {generation}
    {
      alive := alive - {generation};
    }

    // -------------------------------------------------------------- the waiter and the recovery loop

    /** wait: what the exit of a child sets in motion. */
    method ObserveExit(generation: nat)
      requires Invariant() && generation in waiters && generation !in alive
      modifies `active, `commandGeneration, `exitGeneration, `desired, `restarting, `recoveryGeneration, `recoveryPending,
        `waiters, `loops
      ensures Invariant() && !active && alive == {} && exitGeneration == old(exitGeneration) + 1
      // a desired process gets a recovery loop, the one there is or a new one
      ensures old(desired) && !shutdown && recovery ==> restarting && desired
      ensures restarting && !old(restarting) ==> loops == [Loop(Backing, 0, backoff, 0, 0)]
      ensures old(restarting) ==> loops == old(loops) && (old(desired) && !shutdown ==> recoveryPending)
      ensures old(desired) && !shutdown && !recovery && !old(restarting) ==> !desired && !restarting
    {
      active, commandGeneration := false, 0;
      exitGeneration := exitGeneration + 1;
      waiters := waiters - {generation};
      if desired && !shutdown {
        RequestRecovery();
      }
    }

    /** The rest of the waiter's section: a pending mark for the loop there is, a new loop, or giving up. */
    method RequestRecovery()
      requires Invariant() && desired && !shutdown && (restarting ==> recoveryGeneration < exitGeneration)
      modifies `desired, `restarting, `recoveryGeneration, `recoveryPending, `loops
      ensures Invariant()
      ensures recovery ==> restarting && desired
      ensures restarting && !old(restarting) ==> loops == [Loop(Backing, 0, backoff, 0, 0)]
      ensures old(restarting) ==> loops == old(loops) && recoveryPending && restarting && desired
      ensures !recovery && !old(restarting) ==> !desired && !restarting
    {
      if restarting {
        recoveryPending := true;
        return;
      }
      if !recovery {
        desired := false;
        return;
      }
      restarting := true;
      recoveryGeneration := exitGeneration;
      recoveryPending := false;
      loops := loops + [Loop(Backing, 0, backoff, 0, 0)];
    }

    /** restartLoop, after the backoff: give up, or call the boundary. */
    method WakeLoop()
      requires Invariant() && restarting && loops[0].pc.Backing?
      modifies `recoveryPending, `recoveryGeneration, `desired, `loops
      ensures Invariant() && restarting == old(restarting)
      ensures loops[0].pc.Calling? <==> old(desired) && !shutdown && recovery
      ensures desired <==> old(desired) && (shutdown || recovery)
      ensures loops[0].pc.Calling? ==>
        loops[0].calls == old(loops)[0].calls + 1 && loops[0].begun == exitGeneration && loops[0].attempt == old(loops)[0].attempt
      ensures !loops[0].pc.Calling? ==> loops[0].pc.Finishing? && loops[0].calls == old(loops)[0].calls
    {
      var me := loops[0];
      if !desired || shutdown {
        loops := [me.(pc := Finishing)];
        return;
      }
      recoveryPending := false;
      recoveryGeneration := exitGeneration;
      if !recovery {
        desired := false;
        loops := [me.(pc := Finishing)];
        return;
      }
      loops := [me.(pc := Calling, calls := me.calls + 1, begun := exitGeneration)];
    }

    /** restartLoop, when the boundary has returned. */
    method ReturnFromCallback(ok: bool)
      requires Invariant() && restarting && loops[0].pc.Calling?
      modifies `recoveryPending, `recoveryGeneration, `restarting, `desired, `loops
      ensures Invariant()
      // the loop leaves by its success branch only if nothing is left to recover
      ensures !restarting <==>
        ok && (!old(desired) || shutdown || (active && !old(recoveryPending) && exitGeneration == old(loops)[0].begun))
      ensures !restarting ==> loops == [] && !recoveryPending && desired == old(desired)
      // otherwise it goes on to its next attempt, and after the fifth it gives the process up
      ensures restarting ==> loops[0].attempt == old(loops)[0].attempt + 1 && loops[0].calls == old(loops)[0].calls
      // and after a failed call it waits twice as long, up to the longest wait
      ensures restarting && ok ==> loops[0].backoff == old(loops)[0].backoff
      ensures restarting && !ok ==>
        var doubled := 2 * old(loops)[0].backoff;
        loops[0].backoff == if doubled > MAX_BACKOFF then MAX_BACKOFF else doubled
      ensures restarting && loops[0].attempt == MAX_ATTEMPTS ==> loops[0].pc.Finishing? && !desired
      ensures restarting && loops[0].attempt < MAX_ATTEMPTS ==> loops[0].pc.Backing? && desired == old(desired)
    {
      var me := loops[0];
      var stays := true;
      if ok {
        var stillDesired := desired && !shutdown;
        var pending := recoveryPending || exitGeneration != recoveryGeneration;
        if stillDesired && (!active || pending) {
          recoveryPending := false;
          recoveryGeneration := exitGeneration;
        } else {
          restarting, recoveryPending, stays := false, false, false;
        }
      } else {
        var doubled := me.backoff * 2;
        me := me.(backoff := if doubled > MAX_BACKOFF then MAX_BACKOFF else doubled);
      }
      if !stays {
        loops := [];
      } else if me.attempt + 1 < MAX_ATTEMPTS {
        loops := [me.(pc := Backing, attempt := me.attempt + 1)];
      } else {
        desired := false;
        loops := [me.(pc := Finishing, attempt := me.attempt + 1)];
      }
    }

    /** finishRecoveryLoop */
    method FinishLoop()
      requires Invariant() && restarting && loops[0].pc.Finishing?
      modifies `restarting, `recoveryPending, `loops
      ensures Invariant() && !restarting && !recoveryPending && loops == []
    {
      restarting, recoveryPending, loops := false, false, [];
    }

    method BeginShutdown()
      requires Invariant()
      modifies `shutdown
      ensures Invariant() && shutdown
    {
      shutdown := true;
    }

    // -------------------------------------------------------------- logs

    method AppendLog(message: string)
      requires Invariant()
      modifies `logs, `logged
      ensures Invariant() && logged == (if message == "" then old(logged) else old(logged) + [message])
    {
      if message == "" {
        return;
      }
      LastOfAppend(logged, message, MAX_LOGS);
      logs, logged := logs + [message], logged + [message];
      if |logs| > MAX_LOGS {
        logs := logs[|logs| - MAX_LOGS..];
      }
    }

    /** The last messages ever logged, as many as asked for and as are kept. */
    method RecentLogs(limit: int) returns (recent: Option<seq<string>>)
      requires Invariant()
      ensures recent.Some? <==> 1 <= limit <= MAX_LOGS
      ensures recent.Some? ==> recent.value == LastOf(logged, limit)
    {
      if limit < 1 || limit > MAX_LOGS {
        return None;
      }
      var start := |logs| - limit;
      if start < 0 {
        start := 0;
      }
      return Some(logs[start..]);
    }

    // -------------------------------------------------------------- every interleaving

    /** Any sequence of section entries, exits, signals and callback returns the scheduler may choose. */
    method Interleave(events: seq<Event>)
      requires Invariant()
      modifies this
      ensures Invariant()
      ensures |alive| <= 1 && |loops| <= 1
    {
      for i := 0 to |events|
        invariant Invariant()
      {
        PerformEvent(events[i]);
      }
      AtMostOne();
    }

    lemma AtMostOne()
      requires Invariant()
      ensures |alive| <= 1 && |loops| <= 1
    {
      assert alive == {} || alive == {commandGeneration};
    }

    method PerformEvent(e: Event)
      requires Invariant()
      modifies this
      ensures Invariant()
    {
      match e {
        case SetRecovery =>
          var ok := InstallRecovery();
        case StartFirst =>
          var result := StartFirstSection();
        case StartSecond(cancelled, spawns) =>
          var result := StartSecondSection(cancelled, spawns);
        case StopFirst =>
          var target := StopSection();
        case Abort(attempt) =>
          var target := AbortSection(attempt);
        case Signal(generation) =>
          if generation in signals {
            Deliver(generation);
          }
        case Die(generation) =>
          ChildDies(generation);
        case Observe(generation) =>
          if generation in waiters && generation !in alive {
            ObserveExit(generation);
          }
        case Wake =>
          if restarting && loops[0].pc.Backing? {
            WakeLoop();
          }
        case Return(ok) =>
          if restarting && loops[0].pc.Calling? {
            ReturnFromCallback(ok);
          }
        case Finish =>
          if restarting && loops[0].pc.Finishing? {
            FinishLoop();
          }
        case Shutdown =>
          BeginShutdown();
        case Log(message) =>
          AppendLog(message);
      }
    }
  }

  function LastOf(s: seq<string>, n: nat): seq<string> {
    if |s| <= n then s else s[|s| - n..]
  }

  lemma LastOfAppend(s: seq<string>, x: string, n: nat)
    requires n > 0
    ensures LastOf(LastOf(s, n) + [x], n) == LastOf(s + [x], n)
  {
  }
}
