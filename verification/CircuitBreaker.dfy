/** The circuit breaker. It releases its lock around the wrapped call, so a call is two steps,
    Enter and Finish, and the steps of any number of callers interleave. Times are in
    nanoseconds of a clock that does not run backwards. */
module CircuitBreaker {

  datatype State = Closed | Open | HalfOpen

  datatype Breaker = Breaker(state: State, fails: nat, threshold: int, lastFailure: int, cooldown: int)

  function Fresh(threshold: int, cooldown: int): Breaker {
    Breaker(Closed, 0, threshold, 0, cooldown)
  }

  predicate Admits(b: Breaker, now: int) {
    b.state == Open ==> now - b.lastFailure > b.cooldown
  }

  function Entered(b: Breaker, now: int): Breaker {
    if b.state == Open && Admits(b, now) then b.(state := HalfOpen) else b
  }

  function Finished(b: Breaker, now: int, failed: bool): Breaker {
    if !failed then b.(fails := 0, state := Closed)
    else
      var fails := b.fails + 1;
      b.(fails := fails, lastFailure := now, state := if fails >= b.threshold then Open else b.state)
  }

  class Guard {
    var state: State
    var consecutiveFails: nat
    const failThreshold: int
    var lastFailure: int
    const cooldownPeriod: int

    function View(): Breaker
      reads this
    {
      Breaker(state, consecutiveFails, failThreshold, lastFailure, cooldownPeriod)
    }

    constructor (failThreshold: int, cooldownPeriod: int)
      ensures View() == Fresh(failThreshold, cooldownPeriod)
    {
      state, consecutiveFails, lastFailure := Closed, 0, 0;
      this.failThreshold, this.cooldownPeriod := failThreshold, cooldownPeriod;
    }

    method Enter(now: int) returns (admitted: bool)
      modifies this
      ensures admitted <==> (old(state) == Open ==> now - old(lastFailure) > cooldownPeriod)
      ensures admitted == Admits(old(View()), now)
      ensures View() == Entered(old(View()), now)
    {
      match state
      case Open =>
        if now - lastFailure > cooldownPeriod {
          state := HalfOpen;
          admitted := true;
        } else {
          admitted := false;
        }
      case _ => admitted := true;
    }

    method Finish(now: int, failed: bool)
      modifies this
      ensures View() == Finished(old(View()), now, failed)
    {
      if failed {
        consecutiveFails := consecutiveFails + 1;
        lastFailure := now;
        if consecutiveFails >= failThreshold {
          state := Open;
        }
      } else {
        consecutiveFails := 0;
        state := Closed;
      }
    }

    /** A call nothing interleaves with; `ran` says whether the wrapped function was executed. */
    method Execute(a: Attempt) returns (ran: bool, failed: bool)
      modifies this
      ensures ran == Admits(old(View()), a.enter)
      ensures failed == (!ran || a.failed)
      ensures View() == Attempted(old(View()), a)
    {
      ran := Enter(a.enter);
      if !ran {
        return false, true;
      }
      Finish(a.finish, a.failed);
      failed := a.failed;
    }
  }

  // ---- Concurrent callers --------------------------------------------------------------

  datatype Event = Enter(id: nat, now: int) | Finish(id: nat, now: int, failed: bool)

  /** The breaker, the callers inside the wrapped function, the caller that last turned the breaker
      half-open, and the outcomes of all finished calls (true for a failure). */
  datatype System = System(b: Breaker, inFlight: set<nat>, probe: nat, outcomes: seq<bool>)

  function Step(s: System, e: Event): System {
    match e
    case Enter(id, now) =>
      if id in s.inFlight || !Admits(s.b, now) then s
      else s.(b := Entered(s.b, now), inFlight := s.inFlight + {id}, probe := if s.b.state == Open then id else s.probe)
    case Finish(id, now, failed) =>
      if id !in s.inFlight then s
      else s.(b := Finished(s.b, now, failed), inFlight := s.inFlight - {id}, outcomes := s.outcomes + [failed])
  }

  function Run(threshold: int, cooldown: int, events: seq<Event>): System {
    if events == [] then System(Fresh(threshold, cooldown), {}, 0, [])
    else Step(Run(threshold, cooldown, events[..|events| - 1]), events[|events| - 1])
  }

  /** n is the number of failed finishes since the last successful one. */
  ghost predicate FailuresSinceSuccess(outcomes: seq<bool>, n: nat) {
    && n <= |outcomes|
    && (forall i | |outcomes| - n <= i < |outcomes| :: outcomes[i])
    && (n < |outcomes| ==> !outcomes[|outcomes| - n - 1])
  }

  ghost predicate Consistent(s: System) {
    && (s.b.state == Closed <==> s.b.fails < s.b.threshold)
    && FailuresSinceSuccess(s.outcomes, s.b.fails)
    && (s.b.state == HalfOpen ==> s.probe in s.inFlight)
  }

  /** In every interleaving: the state is CLOSED exactly when the failures since the last success are
      below the threshold, that count is what the breaker keeps, and HALF_OPEN means the probe that
      set it is still inside the call. This needs, and only needs, a threshold of at least 1. */
  lemma {:induction false} BreakerIsConsistent(threshold: int, cooldown: int)
    ensures threshold >= 1 <==> forall events :: Consistent(Run(threshold, cooldown, events))
  {
    if threshold >= 1 {
      forall events
        ensures Consistent(Run(threshold, cooldown, events))
      {
        RunIsConsistent(threshold, cooldown, events);
      }
    } else {
      assert !Consistent(Run(threshold, cooldown, []));
    }
  }

  lemma {:induction false} RunIsConsistent(threshold: int, cooldown: int, events: seq<Event>)
    requires threshold >= 1
    ensures Consistent(Run(threshold, cooldown, events))
    ensures Run(threshold, cooldown, events).b.threshold == threshold
    ensures Run(threshold, cooldown, events).b.cooldown == cooldown
  {
    if events != [] {
      RunIsConsistent(threshold, cooldown, events[..|events| - 1]);
    }
  }

  /** The breaker can never be stuck: in every reachable state a caller that arrives more than the
      cooldown after the last failure is admitted, and while HALF_OPEN lasts the probe is in flight
      and its finish ends it, closing the breaker exactly on success. */
  lemma NeverStuck(threshold: int, cooldown: int, events: seq<Event>, now: int, failed: bool)
    requires threshold >= 1
    ensures var s := Run(threshold, cooldown, events);
            && (now - s.b.lastFailure > cooldown ==>
                  forall id | id !in s.inFlight :: id in Step(s, Enter(id, now)).inFlight)
            && (s.b.state == HalfOpen ==>
                  && s.probe in s.inFlight
                  && Step(s, Finish(s.probe, now, failed)).b.state == if failed then Open else Closed)
  {
    RunIsConsistent(threshold, cooldown, events);
  }

  // ---- Who is admitted -----------------------------------------------------------------

  /** The i-th event is a caller going in. */
  ghost predicate WentIn(threshold: int, cooldown: int, events: seq<Event>, i: int) {
    && 0 <= i < |events| && events[i].Enter?
    && events[i].id !in Run(threshold, cooldown, events[..i]).inFlight
    && events[i].id in Run(threshold, cooldown, events[..i + 1]).inFlight
  }

  /** The i-th event is a caller coming out, successfully or not. */
  ghost predicate CameOut(threshold: int, cooldown: int, events: seq<Event>, i: int) {
    && 0 <= i < |events| && events[i].Finish?
    && events[i].id in Run(threshold, cooldown, events[..i]).inFlight
  }

  /** The i-th event is the last call so far that finished. */
  ghost predicate LastOut(threshold: int, cooldown: int, events: seq<Event>, i: int) {
    CameOut(threshold, cooldown, events, i) && forall j | i < j < |events| :: !CameOut(threshold, cooldown, events, j)
  }

  /** The last call that finished failed within the cooldown, and nobody has gone in since. */
  ghost predicate JustFailed(threshold: int, cooldown: int, events: seq<Event>, now: int) {
    exists i :: LastOut(threshold, cooldown, events, i) && events[i].failed && now - events[i].now <= cooldown
                && NobodyIn(threshold, cooldown, events, i)
  }

  ghost predicate NobodyIn(threshold: int, cooldown: int, events: seq<Event>, from: int) {
    forall j | from < j < |events| :: !WentIn(threshold, cooldown, events, j)
  }

  lemma InAndOutInPrefix(threshold: int, cooldown: int, events: seq<Event>, n: nat)
    requires n <= |events|
    ensures forall i | i < n :: WentIn(threshold, cooldown, events[..n], i) == WentIn(threshold, cooldown, events, i)
    ensures forall i | i < n :: CameOut(threshold, cooldown, events[..n], i) == CameOut(threshold, cooldown, events, i)
  {
    forall i | i < n
      ensures WentIn(threshold, cooldown, events[..n], i) == WentIn(threshold, cooldown, events, i)
      ensures CameOut(threshold, cooldown, events[..n], i) == CameOut(threshold, cooldown, events, i)
    {
      if 0 <= i {
        assert events[..n][..i] == events[..i] && events[..n][..i + 1] == events[..i + 1];
      }
    }
  }

  /** What the breaker remembers of the last call that finished. */
  lemma {:induction false} LastFailureIsRemembered(threshold: int, cooldown: int, events: seq<Event>) returns (i: int)
    requires threshold >= 1
    ensures var s := Run(threshold, cooldown, events);
            && (i < 0 ==> s.b.fails == 0)
            && (i >= 0 ==>
                  && LastOut(threshold, cooldown, events, i)
                  && (s.b.fails > 0 <==> events[i].failed) && (s.b.fails > 0 ==> s.b.lastFailure == events[i].now))
            && (s.b.state == Open <==> s.b.fails >= threshold && NobodyIn(threshold, cooldown, events, i))
  {
    i := -1;
    if events != [] {
      var n := |events| - 1;
      var front := events[..n];
      i := LastFailureIsRemembered(threshold, cooldown, front);
      InAndOutInPrefix(threshold, cooldown, events, n);
      RunIsConsistent(threshold, cooldown, front);
      assert events[..n + 1] == events;
      if CameOut(threshold, cooldown, events, n) {
        i := n;
      } else {
        assert NobodyIn(threshold, cooldown, events, i)
               <==> NobodyIn(threshold, cooldown, front, i) && (i < n ==> !WentIn(threshold, cooldown, events, n));
      }
    }
  }

  /** Who is admitted, in every interleaving and on the recorded outcomes alone: while the failures since the
      last success are below the threshold, every caller at any time; otherwise every caller but those who
      arrive within a cooldown of the last failure before anybody else has gone in. */
  lemma AdmittedExactly(threshold: int, cooldown: int, events: seq<Event>, n: nat, id: nat, now: int)
    requires threshold >= 1 && id !in Run(threshold, cooldown, events).inFlight
    requires FailuresSinceSuccess(Run(threshold, cooldown, events).outcomes, n)
    ensures var s := Run(threshold, cooldown, events);
            var t := Step(s, Enter(id, now));
            && t.inFlight == s.inFlight + (if n >= threshold && JustFailed(threshold, cooldown, events, now) then {}
                                           else {id})
            && t.outcomes == s.outcomes
  {
    var i := LastFailureIsRemembered(threshold, cooldown, events);
    RunIsConsistent(threshold, cooldown, events);
    OneStretch(Run(threshold, cooldown, events).outcomes, n, Run(threshold, cooldown, events).b.fails);
    assert forall j | LastOut(threshold, cooldown, events, j) && i >= 0 :: j == i;
  }

  lemma OneStretch(outcomes: seq<bool>, m: nat, n: nat)
    requires FailuresSinceSuccess(outcomes, m) && FailuresSinceSuccess(outcomes, n)
    ensures m == n
  {
  }

  // ---- Who is inside while the breaker is half-open ------------------------------------

  /** The i-th event is a caller entering an open breaker, which turns half-open. */
  ghost predicate Turns(threshold: int, cooldown: int, events: seq<Event>, i: int) {
    && 0 <= i < |events| && events[i].Enter?
    && Run(threshold, cooldown, events[..i]).b.state == Open
    && Run(threshold, cooldown, events[..i + 1]).b.state == HalfOpen
  }

  ghost predicate LastTurn(threshold: int, cooldown: int, events: seq<Event>, i: int) {
    Turns(threshold, cooldown, events, i) && forall j | i < j < |events| :: !Turns(threshold, cooldown, events, j)
  }

  /** The callers that try to enter from the i-th event on. */
  ghost function Entrants(events: seq<Event>, i: nat): set<nat> {
    set j | i <= j < |events| && events[j].Enter? :: events[j].id
  }

  lemma RunSnoc(threshold: int, cooldown: int, front: seq<Event>, e: Event)
    ensures Run(threshold, cooldown, front + [e]) == Step(Run(threshold, cooldown, front), e)
  {
    assert (front + [e])[..|front|] == front;
  }

  lemma TurnsInPrefix(threshold: int, cooldown: int, events: seq<Event>, n: nat)
    requires n <= |events|
    ensures forall i | i < n :: Turns(threshold, cooldown, events[..n], i) == Turns(threshold, cooldown, events, i)
  {
    forall i | i < n
      ensures Turns(threshold, cooldown, events[..n], i) == Turns(threshold, cooldown, events, i)
    {
      if 0 <= i {
        assert events[..n][..i] == events[..i] && events[..n][..i + 1] == events[..i + 1];
      }
    }
  }

  lemma EntrantsSnoc(front: seq<Event>, e: Event, i: nat)
    requires i <= |front|
    ensures Entrants(front + [e], i) == Entrants(front, i) + if e.Enter? then {e.id} else {}
  {
    var events := front + [e];
    assert forall j | 0 <= j < |front| :: events[j] == front[j];
    assert events[|front|] == e;
  }

  /** Nothing but entering happens while the breaker stays half-open: any call that finishes ends it. */
  lemma StaysHalfOpen(s: System, e: Event)
    requires Consistent(s) && s.b.threshold >= 1 && s.b.state == HalfOpen && Step(s, e).b.state == HalfOpen
    ensures Step(s, e).inFlight == s.inFlight + if e.Enter? then {e.id} else {}
    ensures Step(s, e).probe == s.probe
  {
  }

  lemma {:induction false} HalfOpenStretch(threshold: int, cooldown: int, events: seq<Event>) returns (i: nat)
    requires threshold >= 1 && Run(threshold, cooldown, events).b.state == HalfOpen
    ensures LastTurn(threshold, cooldown, events, i)
    ensures var s, before := Run(threshold, cooldown, events), Run(threshold, cooldown, events[..i]);
            && s.inFlight == before.inFlight + Entrants(events, i)
            && s.probe == events[i].id && s.probe !in before.inFlight
  {
    var n := |events| - 1;
    var front, e := events[..n], events[n];
    var s := Run(threshold, cooldown, front);
    RunIsConsistent(threshold, cooldown, front);
    assert events == front + [e] && events[..n + 1] == events;
    TurnsInPrefix(threshold, cooldown, events, n);
    if s.b.state == HalfOpen {
      i := HalfOpenStretch(threshold, cooldown, front);
      assert front[..i] == events[..i];
      StaysHalfOpen(s, e);
      EntrantsSnoc(front, e, i);
    } else {
      i := n;
      EntrantsSnoc(front, e, n);
    }
  }

  /** Exactly when the probe is alone, which the source does not enforce: nobody was still inside when it
      turned the breaker half-open, and nobody else has tried to enter since. */
  lemma ProbeIsAlone(threshold: int, cooldown: int, events: seq<Event>)
    requires threshold >= 1 && Run(threshold, cooldown, events).b.state == HalfOpen
    ensures exists i :: LastTurn(threshold, cooldown, events, i)
    ensures forall i: nat | LastTurn(threshold, cooldown, events, i) ::
              var s := Run(threshold, cooldown, events);
              s.inFlight == {s.probe} <==>
                Run(threshold, cooldown, events[..i]).inFlight == {} && Entrants(events, i + 1) <= {s.probe}
  {
    var turn := HalfOpenStretch(threshold, cooldown, events);
    var s, before := Run(threshold, cooldown, events), Run(threshold, cooldown, events[..turn]);
    assert Entrants(events, turn) == Entrants(events, turn + 1) + {s.probe};
    forall i: nat | LastTurn(threshold, cooldown, events, i)
      ensures i == turn
    {
    }
  }

  /** It need not be: for every threshold and cooldown any number of callers can be inside a half-open
      breaker, two included. */
  lemma {:induction false} HalfOpenAdmitsMany(threshold: int, cooldown: int, callers: nat) returns (events: seq<Event>)
    requires threshold >= 1 && callers >= 1
    ensures Run(threshold, cooldown, events).b.state == HalfOpen
    ensures Run(threshold, cooldown, events).inFlight == FirstIds(callers)
    decreases callers
  {
    var id := callers - 1;
    var e := Enter(id, cooldown + 1);
    var front;
    if callers == 1 {
      front := FailingCalls(threshold, cooldown, threshold);
    } else {
      front := HalfOpenAdmitsMany(threshold, cooldown, id);
    }
    RunSnoc(threshold, cooldown, front, e);
    events := front + [e];
  }

  function FirstIds(n: nat): (ids: set<nat>)
    ensures |ids| == n && forall i | i in ids :: i < n
  {
    if n == 0 then {} else FirstIds(n - 1) + {n - 1}
  }

  /** Calls that enter, fail and finish one after the other at time 0. */
  lemma {:induction false} FailingCalls(threshold: int, cooldown: int, n: nat) returns (events: seq<Event>)
    requires threshold >= 1 && n <= threshold
    ensures Run(threshold, cooldown, events).inFlight == {}
    ensures Run(threshold, cooldown, events).b
         == Breaker(if n < threshold then Closed else Open, n, threshold, 0, cooldown)
  {
    events := [];
    if n > 0 {
      var front := FailingCalls(threshold, cooldown, n - 1);
      RunSnoc(threshold, cooldown, front, Enter(0, 0));
      RunSnoc(threshold, cooldown, front + [Enter(0, 0)], Finish(0, 0, true));
      events := front + [Enter(0, 0)] + [Finish(0, 0, true)];
    }
  }

  // ---- Sequential callers and a bridge that always fails -------------------------------

  datatype Attempt = Attempt(enter: int, finish: int, failed: bool)

  function Attempted(b: Breaker, a: Attempt): Breaker {
    if Admits(b, a.enter) then Finished(Entered(b, a.enter), a.finish, a.failed) else b
  }

  function AfterAll(b: Breaker, attempts: seq<Attempt>): Breaker {
    if attempts == [] then b else Attempted(AfterAll(b, attempts[..|attempts| - 1]), attempts[|attempts| - 1])
  }

  /** The same attempts as steps of a single caller. */
  function EventsOf(attempts: seq<Attempt>): seq<Event> {
    if attempts == [] then []
    else
      var a := attempts[|attempts| - 1];
      EventsOf(attempts[..|attempts| - 1]) + [Enter(0, a.enter)] + [Finish(0, a.finish, a.failed)]
  }

  lemma {:induction false} AttemptsAreARun(threshold: int, cooldown: int, attempts: seq<Attempt>)
    ensures Run(threshold, cooldown, EventsOf(attempts)).b == AfterAll(Fresh(threshold, cooldown), attempts)
    ensures Run(threshold, cooldown, EventsOf(attempts)).inFlight == {}
  {
    if attempts != [] {
      var front, a := attempts[..|attempts| - 1], attempts[|attempts| - 1];
      AttemptsAreARun(threshold, cooldown, front);
      RunSnoc(threshold, cooldown, EventsOf(front), Enter(0, a.enter));
      RunSnoc(threshold, cooldown, EventsOf(front) + [Enter(0, a.enter)], Finish(0, a.finish, a.failed));
    }
  }

  /** So a call nothing interleaves with runs the wrapped function unless the failures since the last success
      have reached the threshold and the last of them is at most a cooldown ago. */
  lemma RunsExactly(threshold: int, cooldown: int, attempts: seq<Attempt>, a: Attempt, n: nat)
    requires threshold >= 1
    requires FailuresSinceSuccess(Run(threshold, cooldown, EventsOf(attempts)).outcomes, n)
    ensures Admits(AfterAll(Fresh(threshold, cooldown), attempts), a.enter) <==>
              !(n >= threshold && JustFailed(threshold, cooldown, EventsOf(attempts), a.enter))
  {
    AttemptsAreARun(threshold, cooldown, attempts);
    AdmittedExactly(threshold, cooldown, EventsOf(attempts), n, 0, a.enter);
  }

  /** How often the wrapped function runs. */
  function Calls(b: Breaker, attempts: seq<Attempt>): nat {
    if attempts == [] then 0
    else
      var front := attempts[..|attempts| - 1];
      Calls(b, front) + if Admits(AfterAll(b, front), attempts[|attempts| - 1].enter) then 1 else 0
  }

  /** Attempts one after the other from time `start`, all failing, the last one begun by `end`. */
  ghost predicate Outage(attempts: seq<Attempt>, start: int, end: int) {
    && (forall i | 0 <= i < |attempts| :: attempts[i].failed && start <= attempts[i].enter <= attempts[i].finish)
    && (forall i, j | 0 <= i < j < |attempts| :: attempts[i].finish <= attempts[j].enter)
    && (forall i | 0 <= i < |attempts| :: attempts[i].enter <= end)
  }

  /** Each call past the threshold waited out a whole cooldown. */
  lemma {:induction false} ProbesAreSpaced(threshold: int, cooldown: int, attempts: seq<Attempt>, start: int, end: int)
    requires threshold >= 1 && cooldown >= 0 && Outage(attempts, start, end) && start <= end
    ensures var b := AfterAll(Fresh(threshold, cooldown), attempts);
            var n := Calls(Fresh(threshold, cooldown), attempts);
            && b.threshold == threshold && b.cooldown == cooldown && b.fails == n && b.state != HalfOpen
            && (b.state == Closed <==> n < threshold)
            && (n >= threshold ==> b.lastFailure >= start + (n - threshold) * (cooldown + 1))
            && (n > threshold ==> end >= start + (n - threshold) * (cooldown + 1))
  {
    if attempts != [] {
      var front := attempts[..|attempts| - 1];
      ProbesAreSpaced(threshold, cooldown, front, start, end);
      var n := Calls(Fresh(threshold, cooldown), front);
      OneMoreMultiple(n - threshold, cooldown + 1);
    }
  }

  lemma OneMoreMultiple(n: int, d: int)
    ensures (n + 1) * d == n * d + d
  {
  }

  /** Call bound: while the bridge stays down, in any span from a fresh breaker the wrapped function
      runs at most threshold + span / (cooldown + 1ns) times, so at most threshold + span / cooldown. */
  lemma CallBound(threshold: int, cooldown: int, attempts: seq<Attempt>, start: int, end: int)
    requires threshold >= 1 && cooldown > 0 && start <= end && Outage(attempts, start, end)
    ensures Calls(Fresh(threshold, cooldown), attempts) <= threshold + (end - start) / (cooldown + 1)
    ensures (end - start) / (cooldown + 1) <= (end - start) / cooldown
  {
    ProbesAreSpaced(threshold, cooldown, attempts, start, end);
    QuotientShrinks(end - start, cooldown);
    var n := Calls(Fresh(threshold, cooldown), attempts);
    if n > threshold {
      AtMostQuotient(n - threshold, cooldown + 1, end - start);
    } else {
      AtMostQuotient(0, cooldown + 1, end - start);
    }
  }

  lemma QuotientShrinks(m: int, d: int)
    requires m >= 0 && d > 0
    ensures m / (d + 1) <= m / d
  {
    var q := m / (d + 1);
    AtMostQuotient(0, d + 1, m);
    assert q * (d + 1) <= m;
    OneMore(q, d);
    AtMostQuotient(q, d, m);
  }

  lemma OneMore(q: int, d: int)
    ensures q * (d + 1) == q * d + q
  {
  }

  lemma AtMostQuotient(n: int, d: int, m: int)
    requires d > 0 && n * d <= m
    ensures n <= m / d
  {
    var q := m / d;
    assert m < (q + 1) * d;
    if n > q {
      Monotone(q + 1, n, d);
      assert false;
    }
  }

  lemma Monotone(a: int, b: int, d: int)
    requires a <= b && d > 0
    ensures a * d <= b * d
  {
  }

  /** One more probe, a nanosecond past the cooldown, is admitted and fails. */
  lemma OneMoreProbe(b: Breaker, earlier: seq<Attempt>, start: Breaker, at: int)
    requires b == AfterAll(start, earlier) && b.state == Open && at == b.lastFailure + b.cooldown + 1
    requires b.fails + 1 >= b.threshold
    requires Outage(earlier, 0, b.lastFailure) && b.cooldown > 0 && 0 <= b.lastFailure
    requires forall a | a in earlier :: a.finish <= b.lastFailure
    ensures var attempts := earlier + [Attempt(at, at, true)];
            && Outage(attempts, 0, at) && (forall a | a in attempts :: a.finish <= at)
            && Calls(start, attempts) == Calls(start, earlier) + 1
            && AfterAll(start, attempts) == b.(fails := b.fails + 1, lastFailure := at)
  {
    var last := Attempt(at, at, true);
    var attempts := earlier + [last];
    assert attempts[..|attempts| - 1] == earlier;
    assert Admits(b, at);
    LongerOutage(earlier, b.lastFailure, at);
  }

  lemma LongerOutage(earlier: seq<Attempt>, before: int, at: int)
    requires Outage(earlier, 0, before) && 0 <= before <= at && forall a | a in earlier :: a.finish <= before
    ensures var attempts := earlier + [Attempt(at, at, true)];
            Outage(attempts, 0, at) && forall a | a in attempts :: a.finish <= at
  {
    assert forall i | 0 <= i < |earlier| :: earlier[i] in earlier;
  }

  /** The bound is attained for every threshold, cooldown and number of probes. */
  lemma {:induction false} CallBoundIsTight(threshold: int, cooldown: int, probes: nat) returns (attempts: seq<Attempt>)
    requires threshold >= 1 && cooldown > 0
    ensures Outage(attempts, 0, probes * (cooldown + 1))
    ensures forall a | a in attempts :: a.finish <= probes * (cooldown + 1)
    ensures Calls(Fresh(threshold, cooldown), attempts) == threshold + probes
    ensures AfterAll(Fresh(threshold, cooldown), attempts)
         == Breaker(Open, threshold + probes, threshold, probes * (cooldown + 1), cooldown)
    decreases probes
  {
    if probes == 0 {
      attempts := FirstFailures(threshold, cooldown, threshold);
    } else {
      var earlier := CallBoundIsTight(threshold, cooldown, probes - 1);
      var b := AfterAll(Fresh(threshold, cooldown), earlier);
      var at := b.lastFailure + cooldown + 1;
      assert 0 <= (probes - 1) * (cooldown + 1) && at == probes * (cooldown + 1);
      OneMoreProbe(b, earlier, Fresh(threshold, cooldown), at);
      attempts := earlier + [Attempt(at, at, true)];
    }
  }

  lemma {:induction false} FirstFailures(threshold: int, cooldown: int, n: nat) returns (attempts: seq<Attempt>)
    requires 0 <= n <= threshold && threshold >= 1
    ensures |attempts| == n && Outage(attempts, 0, 0) && Calls(Fresh(threshold, cooldown), attempts) == n
    ensures AfterAll(Fresh(threshold, cooldown), attempts)
         == Breaker(if n < threshold then Closed else Open, n, threshold, 0, cooldown)
    ensures forall a | a in attempts :: a == Attempt(0, 0, true)
  {
    attempts := [];
    if n > 0 {
      var earlier := FirstFailures(threshold, cooldown, n - 1);
      attempts := earlier + [Attempt(0, 0, true)];
      LongerOutage(earlier, 0, 0);
      OneMoreFailure(Fresh(threshold, cooldown), earlier);
    }
  }

  lemma OneMoreFailure(start: Breaker, earlier: seq<Attempt>)
    requires AfterAll(start, earlier).state == Closed
    ensures var attempts := earlier + [Attempt(0, 0, true)];
            && Calls(start, attempts) == Calls(start, earlier) + 1
            && AfterAll(start, attempts) == Finished(AfterAll(start, earlier), 0, true)
  {
    assert (earlier + [Attempt(0, 0, true)])[..|earlier|] == earlier;
  }
}
