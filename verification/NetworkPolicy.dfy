/** One uninterrupted pass of the network policy controller: log the intent, call the bridge through
    the circuit breaker, mark the entry. */
module NetworkPolicy {
  import CB = CircuitBreaker
  import opened WriteAheadLog

  datatype PolicyPhase = WaitingForDpu | PolicyError | Active

  /** What the pass meets: the DPU's phase and address as cached, the clock, and how dialling and the
      bridge call end. */
  datatype World = World(ready: bool, addressKnown: bool, nanos: nat, enter: int, finish: int,
                         dialled: bool, reached: bool, replied: bool)

  class Controller {
    const wal: Wal
    const breaker: CB.Guard

    constructor (wal: Wal, breaker: CB.Guard)
      ensures this.wal == wal && this.breaker == breaker
    {
      this.wal := wal;
      this.breaker := breaker;
    }

    /** The pass is the three steps Begin, Call and Mark of the interleaved system with nothing in
        between; its phase is Active exactly when the entry ends up COMPLETE, and then the bridge is
        on the hardware. */
    method Reconcile(policy: string, node: string, bridgeName: string, w: World, bridge: Bridge)
        returns (phase: PolicyPhase)
      modifies wal, breaker, bridge
      ensures !w.ready || !w.addressKnown ==>
                && wal.entries == old(wal.entries) && bridge.rules == old(bridge.rules)
                && breaker.View() == old(breaker.View())
                && phase == if w.ready then PolicyError else WaitingForDpu
      ensures w.ready && w.addressKnown ==>
                && EntryId(policy, w.nanos) in wal.entries
                && phase == (if wal.entries[EntryId(policy, w.nanos)].status == Complete then Active else PolicyError)
                && (phase == Active <==> CB.Admits(old(breaker.View()), w.enter) && w.dialled && w.reached && w.replied)
                && bridge.rules == old(bridge.rules)
                   + (if CB.Admits(old(breaker.View()), w.enter) && w.dialled && w.reached then {bridgeName} else {})
                && breaker.View() == CB.Attempted(old(breaker.View()),
                                                  CB.Attempt(w.enter, w.finish, !(w.dialled && w.reached && w.replied)))
                && Follows(old(wal.entries), old(bridge.rules), wal.entries, bridge.rules, policy, node, bridgeName, w,
                           CB.Admits(old(breaker.View()), w.enter))
    {
      if !w.ready {
        return WaitingForDpu;
      }
      if !w.addressKnown {
        return PolicyError;
      }
      var id := EntryId(policy, w.nanos);
      wal.Write(id, CreateBridge, bridgeName, node);
      var admitted := breaker.Enter(w.enter);
      var failed := true;
      if admitted {
        if w.dialled {
          bridge.CreateBridge(bridgeName, w.reached);
          failed := !(w.reached && w.replied);
        }
        breaker.Finish(w.finish, failed);
      }
      if failed {
        wal.MarkFailed(id);
        phase := PolicyError;
      } else {
        wal.MarkComplete(id);
        phase := Active;
      }
      PassFollows(old(wal.entries), old(bridge.rules), wal.entries, bridge.rules, policy, node, bridgeName, w,
                  admitted);
    }
  }

  /** The log and the node's hardware change as the system's three steps change them. */
  ghost predicate Follows(log: Log, rules: set<string>, log': Log, rules': set<string>, policy: string, node: string,
                          bridgeName: string, w: World, admitted: bool) {
    forall s: System | s.log == log && On(s, node) == rules && s.clock < w.nanos ::
      var id := EntryId(policy, w.nanos);
      var t := Step(Step(Step(s, Begin(policy, node, bridgeName, w.nanos)),
                         Call(id, admitted && w.dialled, w.reached, w.replied)), Mark(id));
      t.log == log' && On(t, node) == rules'
  }

  lemma PassFollows(log: Log, rules: set<string>, log': Log, rules': set<string>, policy: string, node: string,
                    bridgeName: string, w: World, admitted: bool)
    requires var id := EntryId(policy, w.nanos);
             var ok := admitted && w.dialled && w.reached && w.replied;
             log' == Marked(log[id := Entry(CreateBridge, bridgeName, node, Pending)], id,
                            if ok then Complete else Failed)
    requires rules' == rules + if admitted && w.dialled && w.reached then {bridgeName} else {}
    ensures Follows(log, rules, log', rules', policy, node, bridgeName, w, admitted)
  {
    forall s: System | s.log == log && On(s, node) == rules && s.clock < w.nanos
      ensures var id := EntryId(policy, w.nanos);
              var t := Step(Step(Step(s, Begin(policy, node, bridgeName, w.nanos)),
                                 Call(id, admitted && w.dialled, w.reached, w.replied)), Mark(id));
              t.log == log' && On(t, node) == rules'
    {
      ThreeSteps(s, EntryId(policy, w.nanos), policy, node, bridgeName, w, admitted && w.dialled);
    }
  }

  lemma ThreeSteps(s: System, id: string, policy: string, node: string, bridgeName: string, w: World, called: bool)
    requires s.clock < w.nanos && id == EntryId(policy, w.nanos)
    ensures var t := Step(Step(Step(s, Begin(policy, node, bridgeName, w.nanos)),
                               Call(id, called, w.reached, w.replied)), Mark(id));
            && t.log == Marked(s.log[id := Entry(CreateBridge, bridgeName, node, Pending)], id,
                               if called && w.reached && w.replied then Complete else Failed)
            && On(t, node) == On(s, node) + if called && w.reached then {bridgeName} else {}
  {
    var begun := Step(s, Begin(policy, node, bridgeName, w.nanos));
    assert begun.log[id] == Entry(CreateBridge, bridgeName, node, Pending) && begun.inFlight[id] == Logged;
    var answered := Step(begun, Call(id, called, w.reached, w.replied));
    assert answered.log == begun.log && answered.inFlight[id] == Answered(called && w.reached && w.replied);
  }
}
