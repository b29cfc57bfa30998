/** The scheduler of internal/infrastructure/scheduler/scheduler.go, as a
    sequential state machine. The goroutine running `loop` is counted, not
    run: `Start` adds one live loop (`wg.Add(1)`), and `Stop` returns only
    once the loop has exited (`wg.Wait()`). The mutex makes `Start`, `Stop`
    and `IsRunning` atomic, which a sequential model gives for free. A
    tick of the ticker is an explicit call. */
module Scheduling {
  import opened Wrappers
  import opened Config
  import opened MessageStore
  import opened Batch

  /** The ticker period `Start` uses: `ScheduleSec` seconds when that
      duration is positive, else 120 seconds. The product is a
      `time.Duration` and wraps like one: a `ScheduleSec` beyond about
      9.2e9 in either direction gives whatever the wrapped product is
      when that is positive, and 120 seconds otherwise. The period is always positive, as `time.NewTicker`
      demands. */
  function TickInterval(cfg: Config): (d: int64)
    ensures d > 0
    ensures 0 < cfg.scheduleSec <= MaxDurationSeconds ==> d == cfg.scheduleSec * Second
    ensures -MaxDurationSeconds <= cfg.scheduleSec <= 0 ==> d == 120 * Second
  {
    var d := Seconds(cfg.scheduleSec);
    if d <= 0 then 120 * Second else d
  }

  /** The deadline of one tick's `Execute`: `WebhookTimeoutSeconds + 10`
      seconds (the sum in Go's `int`, the product in `time.Duration`,
      both wrapping), or 30 seconds when that is not positive. */
  function TickTimeout(cfg: Config): (d: int64)
    ensures d > 0
    ensures 0 < cfg.webhookTimeoutSeconds + 10 <= MaxDurationSeconds ==> d == (cfg.webhookTimeoutSeconds + 10) * Second
    ensures -MaxDurationSeconds <= cfg.webhookTimeoutSeconds + 10 <= 0 ==> d == 30 * Second
  {
    var d := Seconds(Wrap64(cfg.webhookTimeoutSeconds + 10));
    if d <= 0 then 30 * Second else d
  }

  /** The scheduler's state: the `running` flag, the period of the current
      ticker, and the number of live `loop` goroutines. */
  datatype SchedState = SchedState(running: bool, interval: int64, loops: nat)

  /** `NewScheduler`: not running, no ticker, no loop. */
  const Idle: SchedState := SchedState(false, 0, 0)

  /** Running exactly when one loop is live, and then with a usable
      ticker period; no loop otherwise. */
  predicate Inv(s: SchedState) {
    && (s.running ==> s.loops == 1 && s.interval > 0)
    && (!s.running ==> s.loops == 0)
  }

  /** `Start`: nothing when already running; otherwise a new ticker with
      the configured period, the flag set and one more live loop. */
  function OnStart(s: SchedState, cfg: Config): (r: SchedState)
    ensures s.running ==> r == s
    ensures !s.running ==> r.running && r.interval == TickInterval(cfg) && r.loops == s.loops + 1
  {
    if s.running then s
    else SchedState(true, TickInterval(cfg), s.loops + 1)
  }

  /** `Stop`: nothing when not running; otherwise the stop channel is
      closed, the call waits until no loop is live, and the flag is
      cleared. */
  function OnStop(s: SchedState): (r: SchedState)
    ensures !s.running ==> r == s
    ensures s.running ==> !r.running && r.loops == 0 && r.interval == s.interval
  {
    if !s.running then s
    else SchedState(false, s.interval, 0)
  }

  lemma IdleInv()
    ensures Inv(Idle) && !Idle.running
  {
  }

  /** Starting an idle scheduler leaves exactly one live loop: the
      invariant says there was none before. */
  lemma StartPreservesInv(s: SchedState, cfg: Config)
    requires Inv(s)
    ensures Inv(OnStart(s, cfg))
    ensures OnStart(s, cfg).running && OnStart(s, cfg).loops == 1
  {
  }

  lemma StopPreservesInv(s: SchedState)
    requires Inv(s)
    ensures Inv(OnStop(s))
    ensures !OnStop(s).running && OnStop(s).loops == 0
  {
  }

  /** Start and Stop are idempotent: a second call changes nothing. */
  lemma StartIdempotent(s: SchedState, cfg: Config, cfg': Config)
    ensures OnStart(OnStart(s, cfg), cfg') == OnStart(s, cfg)
  {
  }

  lemma StopIdempotent(s: SchedState)
    ensures OnStop(OnStop(s)) == OnStop(s)
  {
  }

  /** A control command or a firing of the ticker. */
  datatype Event = StartCmd | StopCmd | TickFired

  /** How many firings of the ticker `events` holds. */
  function TickCount(events: seq<Event>): nat
    decreases |events|
  {
    if events == [] then 0
    else TickCount(events[..|events| - 1]) + (if events[|events| - 1] == TickFired then 1 else 0)
  }

  /** The state after `events`, and how many of them ran `Execute`: a
      firing runs it when a loop is live to receive it. Only firings run
      `Execute`, so there are at most as many runs as firings; with no
      command among the events, the state is left as it was and either
      every firing runs `Execute` (a loop is live) or none does. */
  function Run(s: SchedState, cfg: Config, events: seq<Event>): (r: (SchedState, nat))
    ensures r.1 <= TickCount(events)
    ensures (forall i | 0 <= i < |events| :: events[i] == TickFired) ==>
              r.0 == s && r.1 == (if s.loops > 0 then |events| else 0)
    decreases |events|
  {
    if events == [] then (s, 0)
    else
      var (s', n) := Run(s, cfg, events[..|events| - 1]);
      match events[|events| - 1]
      case StartCmd => (OnStart(s', cfg), n)
      case StopCmd => (OnStop(s'), n)
      case TickFired => (s', if s'.loops > 0 then n + 1 else n)
  }

  /** The invariant holds after every sequence of commands and ticks, and
      a firing runs `Execute` exactly when the scheduler is running at
      that moment. */
  lemma {:induction false} RunPreservesInv(s: SchedState, cfg: Config, events: seq<Event>)
    requires Inv(s)
    ensures Inv(Run(s, cfg, events).0)
    ensures events != [] && events[|events| - 1] == TickFired ==>
              Run(s, cfg, events).1 == Run(s, cfg, events[..|events| - 1]).1 + (if Run(s, cfg, events[..|events| - 1]).0.running then 1 else 0)
    decreases |events|
  {
    if events != [] {
      RunPreservesInv(s, cfg, events[..|events| - 1]);
    }
  }

  /** Ticks while idle run nothing: from an idle scheduler, a sequence of
      events without `StartCmd` never runs `Execute`. */
  lemma {:induction false} NoStartNoExecute(cfg: Config, events: seq<Event>)
    requires forall i | 0 <= i < |events| :: events[i] != StartCmd
    ensures Run(Idle, cfg, events) == (Idle, 0)
    decreases |events|
  {
    if events != [] {
      NoStartNoExecute(cfg, events[..|events| - 1]);
    }
  }

  /** One firing of the ticker in `loop`: `Execute` runs once with the tick
      deadline and produces its outcome (error, table, attempts); the
      error is only logged, and the scheduler stays as it was, running. */
  method Tick(s: SchedState, cfg: Config, st: Store, env: Env)
    returns (s': SchedState, timeout: int64, err: Option<ExecError>, st': Store, attempts: seq<Attempt>)
    requires Inv(s) && s.running
    requires Valid(st) && cfg.msgPerTick >= 1 && cfg.msgCharLimit >= 0 && RandomOk(env)
    ensures s' == s && s'.running && Inv(s')
    ensures timeout == TickTimeout(cfg) && timeout > 0
    ensures ExecuteOutcome(cfg, env, st, err, st', attempts)
  {
    timeout := TickTimeout(cfg);
    err, st', attempts := Execute(cfg, st, env);
    s' := s;
  }

  /** The scheduler object itself, with the live-loop count as ghost
      state. Its operations are checked against the state machine above. */
  class Scheduler {
    const cfg: Config
    var running: bool
    var interval: int64
    ghost var loops: nat

    ghost function State(): SchedState
      reads this
    {
      SchedState(running, interval, loops)
    }

    ghost predicate Valid()
      reads this
    {
      Inv(State())
    }

    constructor (cfg: Config)
      ensures this.cfg == cfg && Valid() && State() == Idle
    {
      this.cfg := cfg;
      running := false;
      interval := 0;
      loops := 0;
    }

    method Start()
      requires Valid()
      modifies this
      ensures Valid() && State() == OnStart(old(State()), cfg)
    {
      if running {
        return;
      }
      interval := TickInterval(cfg);
      running := true;
      loops := loops + 1;
    }

    method Stop()
      requires Valid()
      modifies this
      ensures Valid() && State() == OnStop(old(State()))
    {
      if !running {
        return;
      }
      loops := loops - 1;
      assert loops == 0;
      running := false;
    }

    /** `IsRunning` reports the flag and changes nothing. */
    method IsRunning() returns (r: bool)
      requires Valid()
      ensures r == running && r == (loops == 1)
    {
      r := running;
    }
  }
}
