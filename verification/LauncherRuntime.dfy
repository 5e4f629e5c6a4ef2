/** The launcher's runtime machines: status debouncing (scripts/bhm_launcher_transport.py:82-96 and the
    monitor loop in scripts/bhm_launcher_workers.py:132-155), bounded readiness polling
    (scripts/bhm_launcher_readiness.py) and the API transaction (scripts/bhm_launcher_service.py:259-320).
    Clocks are exact reals. */
module LauncherRuntime {
  import opened Text
  import opened Payloads

  // ---------------------------------------------------------------- debouncing

  datatype Status = Status(state: string, detail: string)

  const FailureThreshold: nat := 3

  function Recovering(failures: nat, threshold: nat): Status {
    Status("Recovering", "transient probe failure " + Dec(failures) + "/" + Dec(threshold))
  }

  datatype Tracked = Tracked(status: Option<Status>, failures: nat)

  // stabilize_service_status
  function Stabilize(t: Tracked, observed: Status, threshold: nat): Tracked {
    if observed.state == "Running" then Tracked(Some(observed), 0)
    else
      var failures := t.failures + 1;
      if t.status.Some? && t.status.value.state in {"Running", "Recovering"} && failures < threshold
      then Tracked(Some(Recovering(failures, threshold)), failures)
      else Tracked(Some(observed), failures)
  }

  // What the loop holds for a service after a history of observations.
  function Track(history: seq<Status>, threshold: nat): Tracked {
    if history == [] then Tracked(None, 0)
    else Stabilize(Track(history[..|history| - 1], threshold), history[|history| - 1], threshold)
  }

  // The length of the run of failures that ends the history.
  function TrailingFailures(history: seq<Status>): nat {
    if history == [] || history[|history| - 1].state == "Running" then 0
    else TrailingFailures(history[..|history| - 1]) + 1
  }

  predicate HasRun(history: seq<Status>) { exists o <- history :: o.state == "Running" }

  // No probe answers "Recovering"; only the debouncing does.
  predicate Plain(history: seq<Status>) { forall o <- history :: o.state != "Recovering" }

  // Over every history, the counter is the length of the trailing failures, and the report is
  // Recovering exactly when the service has run and fewer failures than the threshold, but at least
  // one, follow; otherwise it is the observation itself.
  lemma {:induction false} DebounceIsExact(history: seq<Status>, threshold: nat)
    requires history != [] && Plain(history)
    ensures var t, n := Track(history, threshold), TrailingFailures(history);
      && t.failures == n
      && t.status == Some(
           if HasRun(history) && 0 < n < threshold then
             Status("Recovering", "transient probe failure " + Dec(n) + "/" + Dec(threshold))
           else history[|history| - 1])
  {
    var init, last := history[..|history| - 1], history[|history| - 1];
    assert history == init + [last];
    if init != [] {
      assert forall o <- init :: o in history;
      DebounceIsExact(init, threshold);
      assert init[|init| - 1] in history;
      TrailingIsRunning(init);
    }
  }

  lemma TrailingIsRunning(history: seq<Status>)
    requires history != []
    ensures TrailingFailures(history) == 0 <==> history[|history| - 1].state == "Running"
  {
  }

  // So a service that has run is shown as down exactly from its threshold-th failure in a row.
  lemma DownFromThreshold(history: seq<Status>, threshold: nat)
    requires history != [] && Plain(history) && HasRun(history) && threshold > 0
    ensures (Track(history, threshold).status == Some(history[|history| - 1])
             && history[|history| - 1].state != "Running")
       <==> TrailingFailures(history) >= threshold
  {
    DebounceIsExact(history, threshold);
    assert history[|history| - 1] in history;
  }

  // ---------------------------------------------------------------- the monitor loop

  type Round = map<string, Status>

  // The observations of one service over the rounds.
  function Of(rounds: seq<Round>, key: string): seq<Status> {
    if rounds == [] then []
    else
      var rest, last := Of(rounds[..|rounds| - 1], key), rounds[|rounds| - 1];
      if key in last then rest + [last[key]] else rest
  }

  function PastOf(rounds: seq<Round>, key: string): Tracked { Track(Of(rounds, key), FailureThreshold) }

  // The state kept for a service.
  function Kept(statuses: map<string, Status>, failures: map<string, nat>, key: string): Tracked {
    Tracked(if key in statuses then Some(statuses[key]) else None, if key in failures then failures[key] else 0)
  }

  /** The monitor's debouncing state, kept per service; every round observes the same services. */
  class Monitor {
    const keys: set<string>
    var statuses: map<string, Status>
    var failures: map<string, nat>
    ghost var rounds: seq<Round>

    ghost predicate Valid()
      reads this
    {
      && (forall key <- keys :: Kept(statuses, failures, key) == Track(Of(rounds, key), 3))
      && (forall round <- rounds :: round.Keys == keys)
    }

    constructor (keys: set<string>)
      ensures Valid() && rounds == [] && this.keys == keys
    {
      this.keys := keys;
      statuses, failures, rounds := map[], map[], [];
    }

    // One turn of the loop: every service is debounced from its own past only.
    method Turn(observed: Round)
      requires Valid() && observed.Keys == keys
      modifies this
      ensures Valid() && rounds == old(rounds) + [observed] && statuses.Keys == keys
    {
      ghost var past := map key | key in keys :: PastOf(rounds, key);
      statuses, failures := DebounceAll(observed, statuses, failures, past);
      rounds := rounds + [observed];
      forall key | key in keys ensures Kept(statuses, failures, key) == PastOf(rounds, key) {
        OfNext(old(rounds), observed, key);
      }
    }
  }

  method DebounceAll(observed: Round, before: map<string, Status>, counts: map<string, nat>,
                     ghost past: map<string, Tracked>)
    returns (statuses: map<string, Status>, failures: map<string, nat>)
    requires observed.Keys == past.Keys && forall key <- past.Keys :: Kept(before, counts, key) == past[key]
    ensures statuses.Keys == observed.Keys
    ensures forall key <- past.Keys ::
      Kept(statuses, failures, key) == Stabilize(past[key], observed[key], FailureThreshold)
  {
    statuses, failures := map[], counts;
    var todo := observed.Keys;
    while todo != {}
      invariant todo <= observed.Keys && statuses.Keys == observed.Keys - todo
      invariant forall key | key in observed && key !in todo ::
        Kept(statuses, failures, key) == Stabilize(past[key], observed[key], FailureThreshold)
      invariant forall key <- todo :: Kept(before, failures, key) == past[key]
    {
      var key :| key in todo;
      var next := Stabilize(Kept(before, failures, key), observed[key], FailureThreshold);
      statuses, failures := statuses[key := next.status.value], failures[key := next.failures];
      todo := todo - {key};
    }
  }

  lemma OfNext(rounds: seq<Round>, round: Round, key: string)
    requires key in round
    ensures PastOf(rounds + [round], key) == Stabilize(PastOf(rounds, key), round[key], FailureThreshold)
    ensures Of(rounds + [round], key) == Of(rounds, key) + [round[key]]
  {
    assert (rounds + [round])[..|rounds|] == rounds;
    var past := Of(rounds, key);
    assert (past + [round[key]])[..|past|] == past;
  }

  // Services do not influence each other: two monitors, over any other services, that saw the same of one
  // service keep and report the same for it.
  lemma OthersDoNotMatter(a: Monitor, b: Monitor, key: string)
    requires a.Valid() && b.Valid() && key in a.keys && key in b.keys && |a.rounds| == |b.rounds|
    requires forall i | 0 <= i < |a.rounds| ::
      key in a.rounds[i] && key in b.rounds[i] && a.rounds[i][key] == b.rounds[i][key]
    ensures Kept(a.statuses, a.failures, key) == Kept(b.statuses, b.failures, key)
  {
    OfAgree(a.rounds, b.rounds, key);
  }

  lemma {:induction false} OfAgree(a: seq<Round>, b: seq<Round>, key: string)
    requires |a| == |b|
    requires forall i | 0 <= i < |a| :: key in a[i] && key in b[i] && a[i][key] == b[i][key]
    ensures Of(a, key) == Of(b, key)
  {
    if a != [] { OfAgree(a[..|a| - 1], b[..|b| - 1], key); }
  }

  // ---------------------------------------------------------------- readiness

  /** A duration as a caller may pass it. */
  datatype Seconds = Finite(value: real) | NotFinite

  const ReadinessTimeout: real := 120.0
  const ReadinessPoll: real := 1.0
  const LeastPoll: real := 0.01

  function Least(a: real, b: real): real { if a <= b then a else b }

  function Greatest(a: real, b: real): real { if a >= b then a else b }

  // bound_timeout; no value stands for the error it raises.
  function BoundTimeout(s: Seconds, maximum: real, minimum: real): Option<real> {
    if s.NotFinite? then None else Some(Least(Greatest(s.value, minimum), maximum))
  }

  function Ceiling(x: real): (n: int)
    ensures x <= n as real < x + 1.0
  {
    -((-x).Floor)
  }

  type Lag = r: real | 0.0 <= r witness 0.0

  /** A clock that never goes back; every use of it may be late by any lag, and a sleep lasts at least
      as long as asked. */
  class Clock {
    const lag: nat -> Lag
    var uses: nat
    var now: real

    constructor (lag: nat -> Lag, now: real)
      ensures this.now == now && this.lag == lag && uses == 0
    {
      this.lag, this.now, uses := lag, now, 0;
    }

    // No use of it is late.
    ghost predicate Punctual() { forall n: nat :: lag(n) == 0.0 }

    method Monotonic() returns (t: real)
      modifies this
      ensures t == now >= old(now) && (Punctual() ==> now == old(now))
    {
      now, uses := now + lag(uses), uses + 1;
      t := now;
    }

    method Sleep(duration: real)
      modifies this
      ensures now >= old(now) + Greatest(duration, 0.0)
      ensures Punctual() ==> now == old(now) + Greatest(duration, 0.0)
    {
      now, uses := now + Greatest(duration, 0.0) + lag(uses), uses + 1;
    }
  }

  datatype Readiness = Readiness(ok: bool, started: bool, rolledBack: bool, attempts: nat, elapsed: real)

  // How long the wait may last, and how often it asks.
  ghost predicate WaitBounds(timeout: Seconds, poll: Seconds, limit: real, step: real) {
    && timeout.Finite? && poll.Finite?
    && limit == (if timeout.value < 0.0 then 0.0 else if timeout.value > 120.0 then 120.0 else timeout.value)
    && step == (if poll.value < 0.01 then 0.01 else if poll.value > 1.0 then 1.0 else poll.value)
  }

  // The probes of a wait: none but the last is ready, the last decides, and a failed wait lasted as
  // long as it should; there are at most ceiling(limit / step) + 1 of them.
  ghost predicate WaitedProperly(r: Readiness, probe: nat -> bool, limit: real, step: real)
    requires step > 0.0
  {
    && 1 <= r.attempts <= Ceiling(limit / step) + 1
    && (forall j | 1 <= j < r.attempts :: !probe(j))
    && r.ok == probe(r.attempts)
    && (!r.ok ==> r.elapsed >= limit)
    && r.started
  }

  // Nothing is left out of a failed wait.
  ghost predicate WaitedInFull(r: Readiness, limit: real, step: real)
    requires step > 0.0
  {
    r.ok || r.attempts == Ceiling(limit / step) + 1
  }

  // The least time k sleeps of a step take.
  ghost function Span(k: nat, step: real): (span: real)
    requires step > 0.0
    ensures span >= 0.0
  {
    if k == 0 then 0.0 else Span(k - 1, step) + step
  }

  lemma {:induction false} SpanIsProduct(k: nat, step: real)
    requires step > 0.0
    ensures Span(k, step) == k as real * step
  {
    if k > 0 {
      SpanIsProduct(k - 1, step);
      assert k as real == (k - 1) as real + 1.0;
      assert ((k - 1) as real + 1.0) * step == (k - 1) as real * step + step;
    }
  }

  // Fewer steps than the ceiling have not covered the limit.
  lemma StepsBelowLimit(limit: real, step: real, k: nat)
    requires step > 0.0 && Span(k, step) < limit
    ensures k < Ceiling(limit / step)
  {
    SpanIsProduct(k, step);
    QuotientExceeds(k as real, step, limit);
  }

  // And as many steps as the ceiling have.
  lemma StepsReachLimit(limit: real, step: real, k: nat)
    requires step > 0.0 && Span(k, step) >= limit
    ensures k >= Ceiling(limit / step)
  {
    SpanIsProduct(k, step);
    if (k as real) < limit / step { QuotientExceeded(k as real, step, limit); }
  }

  lemma QuotientExceeded(a: real, step: real, limit: real)
    requires step > 0.0 && a < limit / step
    ensures a * step < limit
  {
    var q := limit / step;
    assert q * step == limit;
    assert (q - a) * step > 0.0;
  }

  lemma QuotientExceeds(a: real, step: real, limit: real)
    requires step > 0.0 && a * step < limit
    ensures a < limit / step
  {
    var q := limit / step;
    assert q * step == limit;
    assert (q - a) * step == limit - a * step > 0.0;
  }

  // With the registered limits, no wait makes more than 12001 probes.
  lemma ProbesAtMost(timeout: Seconds, poll: Seconds, limit: real, step: real)
    requires WaitBounds(timeout, poll, limit, step)
    ensures step > 0.0 && Ceiling(limit / step) + 1 <= 12001
  {
    assert limit <= 120.0 && step >= 0.01;
    assert step * 12000.0 >= 120.0;
    assert limit / step <= 12000.0;
  }

  // wait_for_readiness; probe(j) is the answer to its j-th probe, an exception being no.
  method WaitForReadiness(clock: Clock, probe: nat -> bool, timeout: Seconds, poll: Seconds)
    returns (r: Option<Readiness>)
    modifies clock
    ensures r == None <==> timeout.NotFinite? || poll.NotFinite?
    ensures forall limit, step | WaitBounds(timeout, poll, limit, step) ::
      && step > 0.0 && r.Some? && WaitedProperly(r.value, probe, limit, step) && r.value.attempts <= 12001
      && (clock.Punctual() ==> WaitedInFull(r.value, limit, step))
    ensures r.Some? ==> !r.value.rolledBack
  {
    var bound, pace := BoundTimeout(timeout, ReadinessTimeout, 0.0), BoundTimeout(poll, ReadinessPoll, LeastPoll);
    if bound == None || pace == None { return None; }
    var limit, step := bound.value, pace.value;
    ProbesAtMost(timeout, poll, limit, step);
    var answer := PollUntilReady(clock, probe, limit, step);
    r := Some(answer);
  }

  method PollUntilReady(clock: Clock, probe: nat -> bool, limit: real, step: real) returns (r: Readiness)
    requires limit >= 0.0 && step > 0.0
    modifies clock
    ensures WaitedProperly(r, probe, limit, step) && !r.rolledBack
    ensures clock.Punctual() ==> WaitedInFull(r, limit, step)
  {
    var startedAt := clock.Monotonic();
    var attempts: nat := 0;
    while true
      invariant clock.now - startedAt >= Least(Span(attempts, step), limit)
      invariant clock.Punctual() ==> clock.now - startedAt == Least(Span(attempts, step), limit)
      invariant attempts <= Ceiling(limit / step)
      invariant forall j | 1 <= j <= attempts :: !probe(j)
      decreases Ceiling(limit / step) - attempts
    {
      ghost var past := attempts;
      attempts := attempts + 1;
      if probe(attempts) {
        var t := clock.Monotonic();
        return Readiness(true, true, false, attempts, Greatest(t - startedAt, 0.0));
      }
      var t := clock.Monotonic();
      var elapsed := Greatest(t - startedAt, 0.0);
      if elapsed >= limit {
        if clock.Punctual() { StepsReachLimit(limit, step, past); }
        return Readiness(false, true, false, attempts, elapsed);
      }
      StepsBelowLimit(limit, step, past);
      assert Span(attempts, step) == Span(past, step) + step;
      clock.Sleep(Least(step, Greatest(limit - elapsed, 0.0)));
    }
  }

  // ---------------------------------------------------------------- start and roll back

  /** The service being started: the tokens its starts returned and those rolled back. */
  class ServiceHost {
    var tokens: seq<nat>
    var undone: seq<nat>

    method Start() returns (token: nat)
      modifies this
      ensures tokens == old(tokens) + [token] && undone == old(undone)
    {
      token := |tokens|;
      tokens := tokens + [token];
    }

    method Rollback(token: nat)
      modifies this
      ensures undone == old(undone) + [token] && tokens == old(tokens)
    {
      undone := undone + [token];
    }
  }

  // start_when_ready; no answer stands for an exception, and rollback says whether there is one and
  // whether it succeeds.  A service that is ready is left alone; a rollback is made at most once, of
  // the own start, after the wait failed.  A duration that is not finite raises only after the start,
  // which then stays.
  method StartWhenReady(host: ServiceHost, clock: Clock, ready: bool, startOk: bool, probe: nat -> bool,
                        rollback: Option<bool>, timeout: Seconds, poll: Seconds)
    returns (r: Option<Readiness>)
    modifies host, clock
    ensures ready || !startOk ==> host.tokens == old(host.tokens) && host.undone == old(host.undone)
    ensures !ready && startOk ==> |host.tokens| == |old(host.tokens)| + 1 && old(host.tokens) <= host.tokens
    ensures r == None <==> !ready && (!startOk || timeout.NotFinite? || poll.NotFinite?)
    ensures r == None && startOk ==> host.undone == old(host.undone)
    ensures r.Some? ==> r.value.ok == (ready || exists j | 1 <= j <= r.value.attempts :: probe(j))
    ensures r.Some? ==> r.value.started == !ready
    ensures r.Some? && !r.value.ok && rollback.Some? ==>
      host.undone == old(host.undone) + [host.tokens[|old(host.tokens)|]] && r.value.rolledBack == rollback.value
    ensures r.Some? && (r.value.ok || rollback.None?) ==> host.undone == old(host.undone) && !r.value.rolledBack
    ensures forall limit, step | r.Some? && !ready && WaitBounds(timeout, poll, limit, step) ::
      && step > 0.0 && WaitedProperly(r.value, probe, limit, step)
      && (clock.Punctual() ==> WaitedInFull(r.value, limit, step))
  {
    if ready { return Some(Readiness(true, false, false, 1, 0.0)); }
    if !startOk { return None; }
    var token := host.Start();
    r := WaitForReadiness(clock, probe, timeout, poll);
    if r == None { return; }
    assert WaitBounds(timeout, poll, BoundTimeout(timeout, ReadinessTimeout, 0.0).value,
                      BoundTimeout(poll, ReadinessPoll, LeastPoll).value);
    if r.value.ok || rollback == None { return; }
    host.Rollback(token);
    r := Some(Readiness(false, true, rollback.value, r.value.attempts, r.value.elapsed));
  }

  // ---------------------------------------------------------------- the API transaction

  /** The API service: the canonical commands issued so far (each with its force flag) and the probes
      made, with the outcome of every one of them. */
  class ApiHost {
    const runs: nat -> bool
    const answers: nat -> bool
    var commands: seq<bool>
    var probes: nat
    ghost var issuedAt: seq<real>

    constructor (runs: nat -> bool, answers: nat -> bool)
      ensures commands == [] && probes == 0 && issuedAt == [] && this.runs == runs && this.answers == answers
    {
      this.runs, this.answers, commands, probes, issuedAt := runs, answers, [], 0, [];
    }

    method Run(force: bool, ghost now: real) returns (ok: bool)
      modifies this
      ensures commands == old(commands) + [force] && probes == old(probes) && ok == runs(|old(commands)|)
      ensures issuedAt == old(issuedAt) + [now]
    {
      ok := runs(|commands|);
      commands, issuedAt := commands + [force], issuedAt + [now];
    }

    method Probe() returns (ready: bool)
      modifies this
      ensures probes == old(probes) + 1 && ready == answers(old(probes))
      ensures commands == old(commands) && issuedAt == old(issuedAt)
    {
      ready := answers(probes);
      probes := probes + 1;
    }
  }

  const ApiProbes: nat := 121

  // Probe until ready or past the deadline.  Without an answer that is ready it goes on for as long as it
  // may, and with a punctual clock asks once a second.
  method ProbeUntilDeadline(host: ApiHost, clock: Clock) returns (ready: bool)
    modifies host, clock
    ensures host.commands == old(host.commands) && host.issuedAt == old(host.issuedAt)
    ensures old(host.probes) < host.probes <= old(host.probes) + ApiProbes
    ensures ready == host.answers(host.probes - 1)
    ensures forall j | old(host.probes) <= j < host.probes - 1 :: !host.answers(j)
    ensures clock.now >= old(clock.now) + if ready then 0.0 else ReadinessTimeout
    ensures clock.Punctual() && !ready ==> host.probes == old(host.probes) + ApiProbes
  {
    var startedAt := clock.Monotonic();
    var deadline := startedAt + ReadinessTimeout;
    ready := false;
    while true
      invariant host.commands == old(host.commands) && host.issuedAt == old(host.issuedAt)
      invariant old(host.probes) <= host.probes && host.probes - old(host.probes) < ApiProbes
      invariant startedAt >= old(clock.now)
      invariant clock.now - startedAt >= (host.probes - old(host.probes)) as real * ReadinessPoll
      invariant clock.Punctual() ==> clock.now - startedAt == (host.probes - old(host.probes)) as real * ReadinessPoll
      invariant forall j | old(host.probes) <= j < host.probes :: !host.answers(j)
      decreases ApiProbes - (host.probes - old(host.probes))
    {
      ready := host.Probe();
      if ready { break; }
      var t := clock.Monotonic();
      if t >= deadline { break; }
      clock.Sleep(ReadinessPoll);
    }
  }

  // One attempt: a command, then probes; without a successful command a single one, whose answer
  // does not save the attempt.
  method StartAttempt(host: ApiHost, clock: Clock, force: bool) returns (ok: bool)
    modifies host, clock
    ensures host.commands == old(host.commands) + [force] && host.issuedAt == old(host.issuedAt) + [old(clock.now)]
    ensures old(host.probes) < host.probes <= old(host.probes) + ApiProbes
    ensures ok == (host.runs(|old(host.commands)|) && host.answers(host.probes - 1))
    ensures forall j | old(host.probes) <= j < host.probes - 1 :: !host.answers(j)
    ensures !host.runs(|old(host.commands)|) ==> host.probes == old(host.probes) + 1
    ensures clock.now >= old(clock.now) + if host.runs(|old(host.commands)|) && !ok then ReadinessTimeout else 0.0
    ensures clock.Punctual() && host.runs(|old(host.commands)|) && !ok ==> host.probes == old(host.probes) + ApiProbes
  {
    var commandOk := host.Run(force, clock.now);
    var ready;
    if commandOk { ready := ProbeUntilDeadline(host, clock); } else { ready := host.Probe(); }
    ok := commandOk && ready;
  }

  datatype ApiResult = ApiResult(ok: bool, started: bool, attempts: nat)

  ghost predicate NoneReady(answers: nat -> bool, first: nat, end: nat) {
    forall j | first <= j < end :: !answers(j)
  }

  // An attempt, with the probes from the first to before the end, was made for nothing: its command
  // succeeded and none of them was ready, or the command failed and there was a single one.
  ghost predicate FailedAttempt(host: ApiHost, command: nat, first: nat, end: nat) {
    first < end && if host.runs(command) then NoneReady(host.answers, first, end) else end == first + 1
  }

  // How long a failed attempt lasts at least, from its command on, and how often it asks when the clock is
  // punctual.
  ghost predicate LastedInFull(host: ApiHost, clock: Clock, command: nat, from: real, to: real, asked: nat) {
    to >= from && (host.runs(command) ==> to >= from + 120.0 && (clock.Punctual() ==> asked == 121))
  }

  // run_authoritative_api_transaction.  At most two commands: the second is always forced, and comes
  // only after the first attempt, whose probes end at `firstEnd`, failed; without force, a service that
  // is ready gets none.  An attempt whose command succeeded is given up only after two minutes, and so,
  // with a punctual clock, only after 121 answers that are not ready.
  method RunApiTransaction(host: ApiHost, clock: Clock, forceRestart: bool) returns (r: ApiResult, ghost firstEnd: nat)
    requires |host.issuedAt| == |host.commands|
    modifies host, clock
    ensures old(host.commands) <= host.commands && host.probes > old(host.probes)
    ensures |host.issuedAt| == |host.commands| && old(host.issuedAt) <= host.issuedAt
    ensures var issued := host.commands[|old(host.commands)|..];
      && (issued == [] || issued == [forceRestart] || issued == [forceRestart, true])
      && (issued == [] <==> !forceRestart && host.answers(old(host.probes)))
      && r.started == (issued != []) && r.attempts == (if issued == [] then 1 else |issued|)
      && (|issued| < 2 ==> r.ok)
    ensures r.started ==> r.ok == (host.runs(|host.commands| - 1) && host.answers(host.probes - 1))
    ensures r.attempts == 2 ==>
      var asked, first := if forceRestart then old(host.probes) else old(host.probes) + 1, |old(host.commands)|;
      && FailedAttempt(host, first, asked, firstEnd) && firstEnd <= asked + ApiProbes
      && firstEnd < host.probes && NoneReady(host.answers, firstEnd, host.probes - 1)
      && LastedInFull(host, clock, first, host.issuedAt[first], host.issuedAt[first + 1], firstEnd - asked)
    ensures r.started && !r.ok ==>
      LastedInFull(host, clock, |host.commands| - 1, host.issuedAt[|host.commands| - 1], clock.now,
                   host.probes - firstEnd)
    ensures host.probes <= old(host.probes) + 1 + 2 * ApiProbes
    ensures var asked := if forceRestart then old(host.probes) else old(host.probes) + 1;
      clock.Punctual() && host.runs(|old(host.commands)|) && (exists j | asked <= j < asked + 121 :: host.answers(j))
      ==> r.ok && |host.commands| <= |old(host.commands)| + 1
  {
    ghost var before := host.commands;
    if !forceRestart {
      var ready := host.Probe();
      if ready { return ApiResult(true, false, 1), host.probes; }
    }
    ghost var asked, first := host.probes, |before|;
    firstEnd := asked;
    for attempt := 1 to 3
      invariant host.commands == before + [forceRestart, true][..attempt - 1] && |host.issuedAt| == |host.commands|
      invariant old(host.issuedAt) <= host.issuedAt && firstEnd <= asked + (attempt - 1) * ApiProbes
      invariant attempt == 1 ==> host.probes == asked
      invariant attempt >= 2 ==> FailedAttempt(host, first, asked, firstEnd) && firstEnd <= asked + ApiProbes
      invariant attempt >= 2 ==>
        LastedInFull(host, clock, first, host.issuedAt[first],
                     if attempt == 2 then clock.now else host.issuedAt[first + 1], firstEnd - asked)
      invariant attempt == 2 ==> firstEnd == host.probes
      invariant attempt == 3 ==> firstEnd < host.probes <= firstEnd + ApiProbes
      invariant attempt == 3 ==> NoneReady(host.answers, firstEnd, host.probes - 1)
      invariant attempt == 3 ==> !(host.runs(first + 1) && host.answers(host.probes - 1))
      invariant attempt == 3 ==>
        LastedInFull(host, clock, first + 1, host.issuedAt[first + 1], clock.now, host.probes - firstEnd)
    {
      var ok := StartAttempt(host, clock, forceRestart || attempt == 2);
      if ok { return ApiResult(true, true, attempt), if attempt == 1 then host.probes else firstEnd; }
      if attempt == 1 { firstEnd := host.probes; }
    }
    r := ApiResult(false, true, 2);
  }
}
