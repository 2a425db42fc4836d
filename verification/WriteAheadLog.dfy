/** The write-ahead log, what is programmed on the hardware, replay after a reboot and the drift
    report. Passes of the network policy controller, reboots and replays interleave step by step,
    and a pass may be cut short anywhere; the log persists. */
module WriteAheadLog {
  import opened Text

  datatype Status = Pending | Complete | Failed

  /** The kinds of operation replay distinguishes; the controller only ever logs the first. */
  datatype Op = CreateBridge | CreateSecurityPolicy | OtherOp(name: string)

  datatype Entry = Entry(op: Op, resource: string, node: string, status: Status)

  type Log = map<string, Entry>

  // ---- Log identifiers -----------------------------------------------------------------

  function EntryId(policy: string, nanos: nat): string {
    "net-" + policy + "-" + Decimal(nanos)
  }

  lemma {:induction false} DigitsShape(n: nat)
    ensures Digits(n) != "" && forall c | c in Digits(n) :: '0' <= c <= '9'
    ensures |Digits(n)| == 1 <==> n < 10
  {
    if n >= 10 {
      DigitsShape(n / 10);
    }
  }

  lemma {:induction false} DigitsInjective(a: nat, b: nat)
    requires Digits(a) == Digits(b)
    ensures a == b
  {
    DigitsShape(a);
    DigitsShape(b);
    var last := ('0' as int + a % 10) as char;
    if a >= 10 {
      var front, back := Digits(a / 10), Digits(b / 10);
      assert Digits(a)[..|Digits(a)| - 1] == front && Digits(b)[..|Digits(b)| - 1] == back;
      assert Digits(a)[|Digits(a)| - 1] == last;
      DigitsInjective(a / 10, b / 10);
    }
  }

  /** Passes that read the clock at different instants log under different identifiers, whatever
      their policies are called. */
  lemma EntryIdsDiffer(p: string, m: nat, q: string, n: nat)
    requires m != n
    ensures EntryId(p, m) != EntryId(q, n)
  {
    if EntryId(p, m) == EntryId(q, n) {
      DigitsShape(m);
      DigitsShape(n);
      LastDash("net-" + p, Digits(m), "net-" + q, Digits(n));
      DigitsInjective(m, n);
    }
  }

  lemma LastDash(a: string, x: string, b: string, y: string)
    requires a + "-" + x == b + "-" + y && '-' !in x && '-' !in y
    ensures x == y
  {
    var s := a + "-" + x;
    assert s[|a|] == '-' && s[|b|] == '-';
    assert forall i | |a| < i < |s| :: s[i] == x[i - |a| - 1];
    assert forall i | |b| < i < |s| :: s[i] == y[i - |b| - 1];
    assert |a| == |b|;
    assert s[|a| + 1..] == x && s[|b| + 1..] == y;
  }

  // ---- The log as an object ------------------------------------------------------------

  function Marked(log: Log, id: string, status: Status): Log {
    if id in log then log[id := log[id].(status := status)] else log
  }

  class Wal {
    var entries: Log

    constructor ()
      ensures entries == map[]
    {
      entries := map[];
    }

    method Write(id: string, op: Op, resource: string, node: string)
      modifies this
      ensures entries == old(entries)[id := Entry(op, resource, node, Pending)]
    {
      entries := entries[id := Entry(op, resource, node, Pending)];
    }

    method MarkComplete(id: string)
      modifies this
      ensures id !in old(entries) ==> entries == old(entries)
      ensures id in old(entries) ==> entries == old(entries)[id := old(entries)[id].(status := Complete)]
      ensures entries == Marked(old(entries), id, Complete)
    {
      if id in entries {
        entries := entries[id := entries[id].(status := Complete)];
      }
    }

    method MarkFailed(id: string)
      modifies this
      ensures id !in old(entries) ==> entries == old(entries)
      ensures id in old(entries) ==> entries == old(entries)[id := old(entries)[id].(status := Failed)]
      ensures entries == Marked(old(entries), id, Failed)
    {
      if id in entries {
        entries := entries[id := entries[id].(status := Failed)];
      }
    }

    /** Every entry with a status exactly once, in no particular order. */
    method GetAll(status: Status) returns (ids: seq<string>)
      ensures forall id :: id in ids <==> id in entries && entries[id].status == status
      ensures forall i, j | 0 <= i < j < |ids| :: ids[i] != ids[j]
    {
      var todo := entries.Keys;
      ids := [];
      while todo != {}
        invariant todo <= entries.Keys
        invariant forall id :: id in ids <==> id in entries && id !in todo && entries[id].status == status
        invariant forall i, j | 0 <= i < j < |ids| :: ids[i] != ids[j]
        decreases todo
      {
        var id :| id in todo;
        todo := todo - {id};
        if entries[id].status == status {
          ids := ids + [id];
        }
      }
    }
  }

  // ---- Desired state, replay and drift -------------------------------------------------

  /** The names of a node's COMPLETE entries. */
  ghost function Desired(log: Log, node: string): set<string> {
    set id | id in log && log[id].node == node && log[id].status == Complete :: log[id].resource
  }

  /** What a replay programs: the COMPLETE CreateBridge entries of the node whose call lands. */
  ghost function Replayed(log: Log, node: string, lands: set<string>): set<string> {
    set id | id in log && log[id].node == node && log[id].status == Complete
             && log[id].op == CreateBridge && id in lands
      :: log[id].resource
  }

  /** The bridge names on one DPU. */
  class Bridge {
    var rules: set<string>

    constructor ()
      ensures rules == {}
    {
      rules := {};
    }

    method CreateBridge(name: string, reached: bool)
      modifies this
      ensures rules == old(rules) + if reached then {name} else {}
    {
      if reached {
        rules := rules + {name};
      }
    }
  }

  datatype Phase = Provisioning | Ready | FirmwareUpdate | Error | Draining

  class LifecycleWatcher {
    const wal: Wal
    var previousPhases: map<string, Phase>

    constructor (wal: Wal)
      ensures this.wal == wal && previousPhases == map[]
    {
      this.wal := wal;
      previousPhases := map[];
    }

    /** `lands` says which log entries' calls reach the hardware; a call that errors is skipped. */
    method ReplayRulesForNode(node: string, bridge: Bridge, lands: set<string>)
      modifies bridge
      ensures bridge.rules == old(bridge.rules) + Replayed(wal.entries, node, lands)
    {
      var completed := wal.GetAll(Complete);
      ghost var done: set<string> := {};
      for i := 0 to |completed|
        invariant done == set j | 0 <= j < i :: completed[j]
        invariant bridge.rules == old(bridge.rules) + Replayed(wal.entries, node, lands * done)
      {
        var id := completed[i];
        assert id in completed;
        var entry := wal.entries[id];
        if entry.node == node && entry.op == CreateBridge {
          bridge.CreateBridge(entry.resource, id in lands);
        }
        done := done + {id};
        assert forall x | x in lands * done :: x in lands * (done - {id}) || x == id;
      }
      assert forall id | id in wal.entries && wal.entries[id].status == Complete :: id in done;
    }

    /** A node is replayed exactly when it turns Ready after a recorded phase that was not Ready, and
        its bridge can be resolved; the new phase is recorded in every case. In particular a watcher
        that has just started replays nothing. */
    method HandleTransition(node: string, phase: Phase, reachable: bool, bridge: Bridge, lands: set<string>)
        returns (ok: bool)
      modifies this, bridge
      ensures previousPhases == old(previousPhases)[node := phase]
      ensures var due := phase == Ready && node in old(previousPhases) && old(previousPhases)[node] != Ready;
              && ok == (!due || reachable)
              && bridge.rules == old(bridge.rules) + if due && reachable then Replayed(wal.entries, node, lands) else {}
    {
      var hasPrevious := node in previousPhases;
      var previous := if hasPrevious then previousPhases[node] else Ready;
      previousPhases := previousPhases[node := phase];
      match phase
      case Ready =>
        if hasPrevious && previous != Ready {
          if !reachable {
            return false;
          }
          ReplayRulesForNode(node, bridge, lands);
        }
        ok := true;
      case _ => ok := true;
    }
  }

  /** The drift report of one node: what the hardware lists beyond the log, and what it lacks. */
  method DriftReport(actual: seq<string>, wal: Wal, node: string) returns (orphans: set<string>, missing: set<string>)
    ensures orphans == (set r | r in actual) - Desired(wal.entries, node)
    ensures missing == Desired(wal.entries, node) - (set r | r in actual)
  {
    var ids := wal.GetAll(Complete);
    var desired: set<string> := {};
    for i := 0 to |ids|
      invariant desired == set j | 0 <= j < i && ids[j] in wal.entries && wal.entries[ids[j]].node == node
                             :: wal.entries[ids[j]].resource
    {
      assert ids[i] in ids;
      if wal.entries[ids[i]].node == node {
        desired := desired + {wal.entries[ids[i]].resource};
      }
    }
    assert desired == Desired(wal.entries, node) by {
      forall r | r in Desired(wal.entries, node)
        ensures r in desired
      {
        var id :| id in wal.entries && wal.entries[id].node == node && wal.entries[id].status == Complete
                  && wal.entries[id].resource == r;
        assert id in ids;
      }
      assert forall j | 0 <= j < |ids| :: ids[j] in ids;
    }
    orphans := {};
    var present: set<string> := {};
    for i := 0 to |actual|
      invariant present == set j | 0 <= j < i :: actual[j]
      invariant orphans == present - desired
    {
      present := present + {actual[i]};
      if actual[i] !in desired {
        orphans := orphans + {actual[i]};
      }
    }
    assert present == set r | r in actual;
    missing := set r | r in desired && r !in present;
  }

  // ---- The interleaved system ----------------------------------------------------------

  /** A pass has logged its intent, or has also heard how its call ended. */
  datatype Pc = Logged | Answered(ok: bool)

  /** A replay under way: the entries of its snapshot it has still to call for. `whole` only records
      that every call so far has landed and the node has not been wiped meanwhile. */
  datatype Replay = Replay(node: string, todo: set<string>, whole: bool)

  /** `stale` and `behind` only record history: for each node, the passes that had their call
      confirmed but not yet marked when the node was last wiped, and the nodes wiped since their last
      whole replay. */
  datatype System = System(log: Log, hardware: map<string, set<string>>, inFlight: map<string, Pc>, clock: int,
                           stale: map<string, set<string>>, behind: set<string>, replays: map<nat, Replay>)

  datatype Event =
    | Begin(policy: string, node: string, bridge: string, now: nat)
    | Call(id: string, admitted: bool, reached: bool, replied: bool)
    | Mark(id: string)
    | Abandon(id: string)
    | Restart
    | Wipe(node: string)
    | StartReplay(replay: nat, node: string)
    | ReplayCall(replay: nat, id: string, lands: bool)
    | EndReplay(replay: nat)

  function Init(): System {
    System(map[], map[], map[], -1, map[], {}, map[])
  }

  function On(s: System, node: string): set<string> {
    if node in s.hardware then s.hardware[node] else {}
  }

  function StaleOn(s: System, node: string): set<string> {
    if node in s.stale then s.stale[node] else {}
  }

  /** The snapshot a replay takes: the COMPLETE entries of its node. */
  function Completed(log: Log, node: string): set<string> {
    set id | id in log && log[id].node == node && log[id].status == Complete
  }

  ghost predicate LandsAll(s: System, node: string, lands: set<string>) {
    Completed(s.log, node) <= lands
  }

  ghost function Step(s: System, e: Event): System {
    match e
    case Begin(policy, node, bridge, now) =>
      if now <= s.clock then s
      else
        var id := EntryId(policy, now);
        s.(log := s.log[id := Entry(CreateBridge, bridge, node, Pending)], inFlight := s.inFlight[id := Logged],
           clock := now)
    case Call(id, admitted, reached, replied) =>
      if id !in s.inFlight || s.inFlight[id] != Logged || id !in s.log then s
      else if !admitted then s.(inFlight := s.inFlight[id := Answered(false)])
      else
        var node := s.log[id].node;
        s.(hardware := s.hardware[node := On(s, node) + if reached then {s.log[id].resource} else {}],
           inFlight := s.inFlight[id := Answered(reached && replied)])
    case Mark(id) =>
      if id !in s.inFlight || s.inFlight[id] == Logged then s
      else s.(log := Marked(s.log, id, if s.inFlight[id].ok then Complete else Failed), inFlight := s.inFlight - {id})
    case Abandon(id) => s.(inFlight := s.inFlight - {id})
    case Restart => s.(inFlight := map[], replays := map[])
    case Wipe(node) => Wiped(s, node)
    case StartReplay(replay, node) =>
      if replay in s.replays then s
      else s.(replays := s.replays[replay := Replay(node, Completed(s.log, node), true)])
    case ReplayCall(replay, id, lands) =>
      if replay !in s.replays || id !in s.replays[replay].todo || id !in s.log then s
      else ReplayCalled(s, replay, id, lands)
    case EndReplay(replay) =>
      if replay !in s.replays || s.replays[replay].todo != {} then s
      else
        var r := s.replays[replay];
        s.(replays := s.replays - {replay}, behind := if r.whole then s.behind - {r.node} else s.behind)
  }

  ghost function Wiped(s: System, node: string): System {
    s.(hardware := s.hardware[node := {}],
       stale := s.stale[node := set id | id in s.inFlight && s.inFlight[id] == Answered(true)
                                         && id in s.log && s.log[id].node == node],
       behind := s.behind + {node},
       replays := map i | i in s.replays :: s.replays[i].(whole := s.replays[i].whole && s.replays[i].node != node))
  }

  /** One call of a replay; a call that errors is skipped and not made again. */
  ghost function ReplayCalled(s: System, replay: nat, id: string, lands: bool): System
    requires replay in s.replays && id in s.log
  {
    var r := s.replays[replay];
    s.(hardware := s.hardware[r.node := On(s, r.node)
                                        + if lands && s.log[id].op == CreateBridge then {s.log[id].resource} else {}],
       replays := s.replays[replay := r.(todo := r.todo - {id}, whole := r.whole && lands)])
  }

  ghost function Run(s: System, events: seq<Event>): System {
    if events == [] then s else Step(Run(s, events[..|events| - 1]), events[|events| - 1])
  }

  ghost predicate Issued(id: string, upTo: int) {
    exists p: string, t: nat :: id == EntryId(p, t) && t <= upTo
  }

  /** Every identifier in the log was made from a clock reading that is not in the future. */
  ghost predicate IdsIssued(s: System) {
    forall id | id in s.log :: Issued(id, s.clock)
  }

  ghost predicate Backed(s: System, id: string) {
    id in s.log && (s.log[id].resource in On(s, s.log[id].node) || id in StaleOn(s, s.log[id].node))
  }

  ghost predicate Inv(s: System) {
    && (forall id | id in s.log :: s.log[id].op == CreateBridge)
    && (forall id | id in s.inFlight :: id in s.log && s.log[id].status == Pending)
    && (forall node, b | b in On(s, node) :: HasRecord(s, node, b))
    && (forall id | id in s.inFlight && s.inFlight[id] == Answered(true) :: Backed(s, id))
    && (forall id | id in s.log && s.log[id].status == Complete && s.log[id].node !in s.behind :: Backed(s, id))
    && (forall i | i in s.replays :: ReplayOk(s, s.replays[i]))
  }

  /** A replay has only COMPLETE entries of its node before it, and while it is whole every other one is
      on the hardware, or was caught by the last wipe before it was marked. */
  ghost predicate ReplayOk(s: System, r: Replay) {
    && r.todo <= Completed(s.log, r.node)
    && (r.whole ==> forall id | id in Completed(s.log, r.node) :: id in r.todo || Backed(s, id))
  }

  ghost predicate HasRecord(s: System, node: string, b: string) {
    exists id :: id in s.log && s.log[id].node == node && s.log[id].resource == b
  }

  lemma BeginIsFresh(s: System, policy: string, now: nat)
    requires IdsIssued(s) && now > s.clock
    ensures EntryId(policy, now) !in s.log
  {
    if EntryId(policy, now) in s.log {
      assert Issued(EntryId(policy, now), s.clock);
      var p: string, t: nat :| EntryId(policy, now) == EntryId(p, t) && t <= s.clock;
      EntryIdsDiffer(policy, now, p, t);
    }
  }

  lemma IssuedGrows(id: string, a: int, b: int)
    requires Issued(id, a) && a <= b
    ensures Issued(id, b)
  {
    var p: string, u: nat :| id == EntryId(p, u) && u <= a;
    assert id == EntryId(p, u) && u <= b;
  }

  /** A log entry keeps its identifier's shape, its node and its name for ever. */
  ghost predicate LogGrows(s: System, t: System) {
    && s.clock <= t.clock
    && forall id | id in s.log ::
         && id in t.log && t.log[id].op == s.log[id].op
         && t.log[id].node == s.log[id].node && t.log[id].resource == s.log[id].resource
  }

  lemma GrowthKeepsRecords(s: System, t: System)
    requires LogGrows(s, t)
    ensures forall node, b | HasRecord(s, node, b) :: HasRecord(t, node, b)
  {
  }

  /** A step that loses no backing and no COMPLETE entry, and completes only what is backed. */
  ghost predicate Keeps(s: System, t: System) {
    && LogGrows(s, t)
    && (forall id | Backed(s, id) :: Backed(t, id))
    && (forall node :: Completed(s.log, node) <= Completed(t.log, node))
    && (forall node, id | id in Completed(t.log, node) :: id in Completed(s.log, node) || Backed(t, id))
  }

  lemma KeptReplay(s: System, t: System, r: Replay)
    requires Keeps(s, t) && ReplayOk(s, r)
    ensures ReplayOk(t, r)
  {
  }

  lemma KeptReplays(s: System, t: System)
    requires Keeps(s, t) && Inv(s) && t.replays == s.replays
    ensures forall i | i in t.replays :: ReplayOk(t, t.replays[i])
  {
    forall i | i in t.replays
      ensures ReplayOk(t, t.replays[i])
    {
      KeptReplay(s, t, s.replays[i]);
    }
  }

  lemma StepKeepsIds(s: System, e: Event)
    requires IdsIssued(s)
    ensures IdsIssued(Step(s, e))
  {
    if e.Begin? && e.now > s.clock {
      assert Issued(EntryId(e.policy, e.now), e.now);
      forall id | id in s.log
        ensures Issued(id, e.now)
      {
        IssuedGrows(id, s.clock, e.now);
      }
    }
  }

  lemma BeginKeepsInv(s: System, policy: string, node: string, bridge: string, now: nat)
    requires Inv(s) && IdsIssued(s)
    ensures Inv(Step(s, Begin(policy, node, bridge, now)))
  {
    if now > s.clock {
      var id := EntryId(policy, now);
      BeginIsFresh(s, policy, now);
      LoggingKeepsInv(s, id, Entry(CreateBridge, bridge, node, Pending), now);
    }
  }

  lemma LoggingKeepsInv(s: System, id: string, entry: Entry, now: int)
    requires Inv(s) && id !in s.log && now > s.clock
    requires entry.op == CreateBridge && entry.status == Pending
    ensures Inv(s.(log := s.log[id := entry], inFlight := s.inFlight[id := Logged], clock := now))
  {
    var t := s.(log := s.log[id := entry], inFlight := s.inFlight[id := Logged], clock := now);
    GrowthKeepsRecords(s, t);
    forall other | Backed(s, other)
      ensures Backed(t, other)
    {
    }
    KeptReplays(s, t);
  }

  lemma CallKeepsInv(s: System, id: string, admitted: bool, reached: bool, replied: bool)
    requires Inv(s)
    ensures Inv(Step(s, Call(id, admitted, reached, replied)))
  {
    if id in s.inFlight && s.inFlight[id] == Logged && id in s.log {
      if admitted {
        ProgrammingKeepsInv(s, id, reached, Answered(reached && replied));
      } else {
        var t := s.(inFlight := s.inFlight[id := Answered(false)]);
        GrowthKeepsRecords(s, t);
        SameHardware(s, t);
        KeptReplays(s, t);
      }
    }
  }

  lemma ProgrammingKeepsInv(s: System, id: string, reached: bool, pc: Pc)
    requires Inv(s) && id in s.inFlight && id in s.log && (pc == Answered(true) ==> reached)
    ensures var node := s.log[id].node;
            Inv(s.(hardware := s.hardware[node := On(s, node) + if reached then {s.log[id].resource} else {}],
                   inFlight := s.inFlight[id := pc]))
  {
    var node := s.log[id].node;
    var t := s.(hardware := s.hardware[node := On(s, node) + if reached then {s.log[id].resource} else {}],
                inFlight := s.inFlight[id := pc]);
    GrowthKeepsRecords(s, t);
    assert HasRecord(s, node, s.log[id].resource);
    forall other | Backed(s, other)
      ensures Backed(t, other)
    {
    }
    KeptReplays(s, t);
  }

  lemma MarkKeepsInv(s: System, id: string)
    requires Inv(s)
    ensures Inv(Step(s, Mark(id)))
  {
    var t := Step(s, Mark(id));
    GrowthKeepsRecords(s, t);
    MarkKeeps(s, id);
    KeptReplays(s, t);
  }

  lemma MarkKeeps(s: System, id: string)
    requires Inv(s)
    ensures Keeps(s, Step(s, Mark(id)))
  {
    var t := Step(s, Mark(id));
    forall other | Backed(s, other)
      ensures Backed(t, other)
    {
    }
  }

  lemma WipeKeepsInv(s: System, node: string)
    requires Inv(s)
    ensures Inv(Wiped(s, node))
  {
    var t := Wiped(s, node);
    GrowthKeepsRecords(s, t);
    forall id | Backed(s, id) && s.log[id].node != node
      ensures Backed(t, id)
    {
    }
    forall i | i in t.replays
      ensures ReplayOk(t, t.replays[i])
    {
      assert ReplayOk(s, s.replays[i]);
    }
  }

  lemma StartKeepsInv(s: System, replay: nat, node: string)
    requires Inv(s)
    ensures Inv(Step(s, StartReplay(replay, node)))
  {
    var t := Step(s, StartReplay(replay, node));
    GrowthKeepsRecords(s, t);
    SameHardware(s, t);
    forall i | i in t.replays
      ensures ReplayOk(t, t.replays[i])
    {
      if i in s.replays {
        KeptReplay(s, t, s.replays[i]);
      }
    }
  }

  lemma ReplayCallKeepsInv(s: System, replay: nat, id: string, lands: bool)
    requires Inv(s) && replay in s.replays && id in s.replays[replay].todo && id in s.log
    ensures Inv(ReplayCalled(s, replay, id, lands))
  {
    var r := s.replays[replay];
    var t := ReplayCalled(s, replay, id, lands);
    assert ReplayOk(s, r) && HasRecord(s, r.node, s.log[id].resource);
    GrowthKeepsRecords(s, t);
    forall other | Backed(s, other)
      ensures Backed(t, other)
    {
    }
    forall i | i in t.replays
      ensures ReplayOk(t, t.replays[i])
    {
      KeptReplay(s, t, s.replays[i]);
    }
  }

  lemma EndKeepsInv(s: System, replay: nat)
    requires Inv(s)
    ensures Inv(Step(s, EndReplay(replay)))
  {
    var t := Step(s, EndReplay(replay));
    GrowthKeepsRecords(s, t);
    SameHardware(s, t);
    forall i | i in t.replays
      ensures ReplayOk(t, t.replays[i])
    {
      KeptReplay(s, t, s.replays[i]);
    }
    if replay in s.replays && s.replays[replay].todo == {} && s.replays[replay].whole {
      WholeReplayBacks(s, s.replays[replay]);
    }
  }

  lemma WholeReplayBacks(s: System, r: Replay)
    requires ReplayOk(s, r) && r.todo == {} && r.whole
    ensures forall id | id in s.log && s.log[id].status == Complete && s.log[id].node == r.node :: Backed(s, id)
  {
    assert forall id | id in s.log && s.log[id].status == Complete && s.log[id].node == r.node ::
        id in Completed(s.log, r.node);
  }

  lemma StepKeepsInv(s: System, e: Event)
    requires Inv(s) && IdsIssued(s)
    ensures Inv(Step(s, e)) && IdsIssued(Step(s, e))
  {
    StepKeepsIds(s, e);
    match e
    case Begin(policy, node, bridge, now) => BeginKeepsInv(s, policy, node, bridge, now);
    case Call(id, admitted, reached, replied) => CallKeepsInv(s, id, admitted, reached, replied);
    case Mark(id) => MarkKeepsInv(s, id);
    case Abandon(_) =>
      GrowthKeepsRecords(s, Step(s, e));
      SameHardware(s, Step(s, e));
      KeptReplays(s, Step(s, e));
    case Restart =>
      GrowthKeepsRecords(s, Step(s, e));
      SameHardware(s, Step(s, e));
    case Wipe(node) => WipeKeepsInv(s, node);
    case StartReplay(replay, node) => StartKeepsInv(s, replay, node);
    case ReplayCall(replay, id, lands) =>
      if replay in s.replays && id in s.replays[replay].todo && id in s.log {
        ReplayCallKeepsInv(s, replay, id, lands);
      }
    case EndReplay(replay) => EndKeepsInv(s, replay);
  }

  lemma SameHardware(s: System, t: System)
    requires t.log == s.log && t.hardware == s.hardware && t.stale == s.stale && t.clock == s.clock
    ensures Keeps(s, t) && forall id :: Backed(s, id) == Backed(t, id)
  {
  }

  lemma {:induction false} EveryRunKeepsInv(events: seq<Event>)
    ensures Inv(Run(Init(), events)) && IdsIssued(Run(Init(), events))
  {
    if events != [] {
      EveryRunKeepsInv(events[..|events| - 1]);
      StepKeepsInv(Run(Init(), events[..|events| - 1]), events[|events| - 1]);
    }
  }

  // ---- What the log guarantees ---------------------------------------------------------

  /** In every interleaving, crashes and reboots included, every bridge on a node has a log record
      for that node, and an orphan is always the trace of a pass that was never marked COMPLETE. */
  lemma EveryBridgeIsLogged(events: seq<Event>, node: string, b: string)
    requires b in On(Run(Init(), events), node)
    ensures var s := Run(Init(), events);
            && HasRecord(s, node, b)
            && (b !in Desired(s.log, node) ==>
                  exists id :: id in s.log && s.log[id].node == node && s.log[id].resource == b
                               && s.log[id].status != Complete)
  {
    EveryRunKeepsInv(events);
    assert HasRecord(Run(Init(), events), node, b);
  }

  /** The calls of a replay, one after the other; `lands` says which reach the hardware. */
  ghost function AfterCalls(s: System, replay: nat, ids: seq<string>, lands: set<string>): System {
    if ids == [] then s
    else
      var id := ids[|ids| - 1];
      Step(AfterCalls(s, replay, ids[..|ids| - 1], lands), ReplayCall(replay, id, id in lands))
  }

  ghost predicate Distinct(ids: seq<string>) {
    forall i, j | 0 <= i < j < |ids| :: ids[i] != ids[j]
  }

  /** The names whose calls have landed. */
  ghost function Landed(log: Log, ids: seq<string>, lands: set<string>): set<string> {
    set id | id in ids && id in lands && id in log && log[id].op == CreateBridge :: log[id].resource
  }

  ghost predicate SameBut(s: System, t: System, node: string) {
    && t.log == s.log && t.inFlight == s.inFlight && t.stale == s.stale && t.clock == s.clock
    && forall other | other != node :: On(t, other) == On(s, other)
  }

  /** What a replay has done after calling for some of its entries. */
  ghost predicate Progressed(s: System, t: System, replay: nat, ids: seq<string>, lands: set<string>)
    requires replay in s.replays
  {
    var r := s.replays[replay];
    && SameBut(s, t, r.node) && t.behind == s.behind
    && On(t, r.node) == On(s, r.node) + Landed(s.log, ids, lands)
    && replay in t.replays
    && t.replays[replay] == Replay(r.node, r.todo - Elements(ids), r.whole && Elements(ids) <= lands)
    && t.replays - {replay} == s.replays - {replay}
  }

  lemma OneCallMore(s: System, t: System, replay: nat, front: seq<string>, id: string, lands: set<string>)
    requires replay in s.replays && Progressed(s, t, replay, front, lands)
    requires id in s.replays[replay].todo && id in s.log && id !in front
    ensures Progressed(s, Step(t, ReplayCall(replay, id, id in lands)), replay, front + [id], lands)
  {
    LandedSnoc(s.log, front, id, lands);
    var r := s.replays[replay];
    assert r.todo - Elements(front) - {id} == r.todo - Elements(front + [id]);
    var u := ReplayCalled(t, replay, id, id in lands);
    assert u == Step(t, ReplayCall(replay, id, id in lands));
    assert u.replays - {replay} == t.replays - {replay};
    var landed := id in lands && s.log[id].op == CreateBridge;
    assert On(u, r.node) == On(t, r.node) + if landed then {s.log[id].resource} else {};
  }

  lemma {:induction false} CallsAddUp(s: System, replay: nat, ids: seq<string>, lands: set<string>)
    requires replay in s.replays && Distinct(ids)
    requires forall id | id in ids :: id in s.replays[replay].todo && id in s.log
    ensures Progressed(s, AfterCalls(s, replay, ids, lands), replay, ids, lands)
  {
    if ids != [] {
      var front, id := ids[..|ids| - 1], ids[|ids| - 1];
      assert id in ids && forall x | x in front :: x in ids;
      CallsAddUp(s, replay, front, lands);
      assert ids == front + [id] && id !in front;
      OneCallMore(s, AfterCalls(s, replay, front, lands), replay, front, id, lands);
    }
  }

  function Elements(ids: seq<string>): set<string> {
    set id | id in ids
  }

  lemma LandedSnoc(log: Log, front: seq<string>, id: string, lands: set<string>)
    requires id in log
    ensures Landed(log, front + [id], lands)
         == Landed(log, front, lands) + if id in lands && log[id].op == CreateBridge then {log[id].resource} else {}
    ensures Elements(front + [id]) == Elements(front) + {id}
  {
    assert forall x :: x in front + [id] <==> x in front || x == id;
  }

  /** A reboot of a node, then an undisturbed replay that calls for every COMPLETE entry in some order. */
  ghost function Restored(s: System, node: string, replay: nat, ids: seq<string>, lands: set<string>): System {
    var started := Step(Wiped(s, node), StartReplay(replay, node));
    Step(AfterCalls(started, replay, ids, lands), EndReplay(replay))
  }

  ghost predicate Covers(s: System, node: string, replay: nat, ids: seq<string>) {
    replay !in s.replays && Distinct(ids) && Elements(ids) == Completed(s.log, node)
  }

  lemma RestoredIs(s: System, node: string, replay: nat, ids: seq<string>, lands: set<string>)
    requires Inv(s) && Covers(s, node, replay, ids)
    ensures var t := Restored(s, node, replay, ids, lands);
            && On(t, node) == Replayed(s.log, node, lands)
            && SameBut(Wiped(s, node), t, node)
            && (node in t.behind <==> !LandsAll(s, node, lands))
  {
    var wiped := Wiped(s, node);
    var started := Step(wiped, StartReplay(replay, node));
    assert started.replays[replay] == Replay(node, Completed(s.log, node), true);
    assert forall id | id in ids :: id in Elements(ids);
    CallsAddUp(started, replay, ids, lands);
    LandedIsReplayed(s, node, ids, lands);
    var called := AfterCalls(started, replay, ids, lands);
    assert called.replays[replay].todo == {};
    var t := Step(called, EndReplay(replay));
    assert t.hardware == called.hardware;
    forall other | other != node
      ensures On(t, other) == On(wiped, other)
    {
      assert On(called, other) == On(started, other);
    }
  }

  lemma LandedIsReplayed(s: System, node: string, ids: seq<string>, lands: set<string>)
    requires Elements(ids) == Completed(s.log, node)
    ensures Landed(s.log, ids, lands) == Replayed(s.log, node, lands)
  {
    forall id
      ensures id in ids <==> id in Completed(s.log, node)
    {
      assert id in ids <==> id in Elements(ids);
    }
  }

  /** Right after a reboot and a replay, in whatever order it makes its calls, the node has exactly the
      names whose calls landed. So it has its COMPLETE entries, and the drift report is empty, exactly
      when every name has an entry whose call landed; neither the log nor any other node has changed. */
  lemma ReplayRestoresTheNode(events: seq<Event>, node: string, replay: nat, ids: seq<string>, lands: set<string>)
    requires Covers(Run(Init(), events), node, replay, ids)
    ensures var s := Run(Init(), events);
            var t := Restored(s, node, replay, ids, lands);
            && On(t, node) == Replayed(s.log, node, lands)
            && (On(t, node) == Desired(t.log, node) <==> Desired(s.log, node) <= Replayed(s.log, node, lands))
            && (LandsAll(s, node, lands) ==> On(t, node) == Desired(t.log, node))
            && (node in t.behind <==> !LandsAll(s, node, lands))
            && t.log == s.log && t.inFlight == s.inFlight
            && forall other | other != node :: On(t, other) == On(s, other)
  {
    EveryRunKeepsInv(events);
    var s := Run(Init(), events);
    RestoredIs(s, node, replay, ids, lands);
    ReplayedIsDesired(s, node, lands);
  }

  lemma ReplayedIsDesired(s: System, node: string, lands: set<string>)
    requires Inv(s)
    ensures Replayed(s.log, node, lands) <= Desired(s.log, node)
    ensures LandsAll(s, node, lands) ==> Replayed(s.log, node, lands) == Desired(s.log, node)
  {
    if LandsAll(s, node, lands) {
      forall r | r in Desired(s.log, node)
        ensures r in Replayed(s.log, node, lands)
      {
        var id :| id in s.log && s.log[id].node == node && s.log[id].status == Complete && s.log[id].resource == r;
        assert id in Completed(s.log, node);
      }
    }
  }

  /** For a node that has not been wiped since its last whole replay, the drift report can only miss
      names of passes that the last wipe caught between the hardware's answer and the log mark; if there
      were none, it misses nothing. */
  lemma MissingIsAlwaysStale(events: seq<Event>, node: string, r: string)
    requires node !in Run(Init(), events).behind
    requires r in Desired(Run(Init(), events).log, node) && r !in On(Run(Init(), events), node)
    ensures var s := Run(Init(), events);
            exists id :: id in StaleOn(s, node) && id in s.log && s.log[id].node == node && s.log[id].resource == r
  {
    EveryRunKeepsInv(events);
    var s := Run(Init(), events);
    var id :| id in s.log && s.log[id].node == node && s.log[id].status == Complete && s.log[id].resource == r;
    assert Backed(s, id);
  }

  /** A pass cut short after it logged its intent, or after its call but before the mark, leaves its entry
      PENDING for ever: nothing looks for such entries, so no replay ever calls for it. */
  lemma {:induction false} AbandonedStaysPending(s: System, events: seq<Event>, id: string)
    requires Inv(s) && IdsIssued(s) && id in s.log && s.log[id].status == Pending && id !in s.inFlight
    ensures var t := Run(s, events);
            && Inv(t) && IdsIssued(t) && id !in t.inFlight && id in t.log && t.log[id] == s.log[id]
            && forall i | i in t.replays :: id !in t.replays[i].todo
  {
    if events != [] {
      var front, e := events[..|events| - 1], events[|events| - 1];
      AbandonedStaysPending(s, front, id);
      StepKeepsInv(Run(s, front), e);
      StillPending(Run(s, front), e, id);
    }
    NeverReplayed(Run(s, events), id);
  }

  lemma StillPending(s: System, e: Event, id: string)
    requires IdsIssued(s) && id in s.log && id !in s.inFlight
    ensures var t := Step(s, e); id in t.log && t.log[id] == s.log[id] && id !in t.inFlight
  {
    if e.Begin? && e.now > s.clock {
      BeginIsFresh(s, e.policy, e.now);
    }
  }

  lemma NeverReplayed(s: System, id: string)
    requires Inv(s) && id in s.log && s.log[id].status == Pending
    ensures forall i | i in s.replays :: id !in s.replays[i].todo
  {
    forall i | i in s.replays
      ensures id !in s.replays[i].todo
    {
      assert ReplayOk(s, s.replays[i]);
    }
  }

  /** A pass on an idle, empty system up to the point where the hardware has confirmed its call. */
  ghost function Confirmed(id: string, node: string, bridge: string, now: int): System {
    System(map[id := Entry(CreateBridge, bridge, node, Pending)], map[node := {bridge}], map[id := Answered(true)],
           now, map[], {}, map[])
  }

  lemma ConfirmedIsReached(policy: string, node: string, bridge: string)
    ensures var id := EntryId(policy, 0);
            Confirmed(id, node, bridge, 0)
            == Step(Step(Init(), Begin(policy, node, bridge, 0)), Call(id, true, true, true))
  {
    var id := EntryId(policy, 0);
    var s := Step(Init(), Begin(policy, node, bridge, 0));
    var t := Step(s, Call(id, true, true, true));
    assert s.log == map[id := Entry(CreateBridge, bridge, node, Pending)] && s.inFlight == map[id := Logged];
    assert On(s, node) == {};
    var nothing: set<string> := {};
    assert nothing + {bridge} == {bridge};
    assert t.hardware == map[node := nothing + {bridge}];
    assert t.hardware == map[node := {bridge}] && t.inFlight == map[id := Answered(true)];
  }

  /** Exactly when such a pass loses its rule: in every reachable state, when the reboot catches it
      between answer and mark, the replay lands every call, and the pass is then marked, its name is
      desired of a node that counts as restored, and is missing exactly when no entry that was COMPLETE
      before the reboot has the same name. */
  lemma RebootBeforeMarkLosesARule(events: seq<Event>, id: string, replay: nat, ids: seq<string>, lands: set<string>)
    requires var s := Run(Init(), events);
             && id in s.inFlight && s.inFlight[id] == Answered(true) && id in s.log
             && Covers(s, s.log[id].node, replay, ids) && LandsAll(s, s.log[id].node, lands)
    ensures var s := Run(Init(), events);
            var node, name := s.log[id].node, s.log[id].resource;
            var t := Step(Restored(s, node, replay, ids, lands), Mark(id));
            && name in Desired(t.log, node) && node !in t.behind && id in StaleOn(t, node)
            && (name !in On(t, node) <==> name !in Desired(s.log, node))
  {
    EveryRunKeepsInv(events);
    var s := Run(Init(), events);
    var node := s.log[id].node;
    var restored := Restored(s, node, replay, ids, lands);
    RestoredIs(s, node, replay, ids, lands);
    ReplayedIsDesired(s, node, lands);
    var t := Step(restored, Mark(id));
    assert t.log[id] == s.log[id].(status := Complete);
    assert t.log[id].resource in Desired(t.log, node);
  }
}
