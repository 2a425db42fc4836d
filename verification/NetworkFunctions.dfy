/** The imperative per-pod path: create and delete calls keyed by a request hash, with a bounded
    wait, refine a plain set of active requests. */
module NetworkFunctions {
  import opened Text
  import opened UnstructuredValues
  import opened DpfStore
  import opened SfcTranslation

  datatype NfRequest = NfRequest(input: string, output: string, bridge: string)

  function HashInput(node: string, req: NfRequest): string {
    node + "|" + req.input + "|" + req.output + "|" + req.bridge
  }

  function RequestHash(p: Platform, node: string, req: NfRequest): string
    requires Sound(p)
  {
    assert Hex(p.sha1(HashInput(node, req)), 40);
    p.sha1(HashInput(node, req))[..12]
  }

  function BaseName(p: Platform, node: string, req: NfRequest): string
    requires Sound(p)
  {
    DeterministicName(p, node, RequestHash(p, node, req), "nf")
  }

  function NfLabels(p: Platform, node: string, req: NfRequest): map<string, string>
    requires Sound(p)
  {
    OwnerLabels("NFRequest", node, RequestHash(p, node, req))[BRIDGE_ID := p.clean(req.bridge)]
  }

  /** How one node names and labels the objects of its requests, and the object that asks for a
      number of virtual functions. */
  datatype NfScheme = NfScheme(node: string, base: NfRequest -> string, labels: NfRequest -> map<string, string>,
                               vfRequest: int -> DpfObject)

  function StandardNfScheme(p: Platform, node: string): NfScheme
    requires Sound(p)
  {
    NfScheme(node, req => BaseName(p, node, req), req => NfLabels(p, node, req), count => VfRequest(p, node, count))
  }

  function VfRequest(p: Platform, node: string, count: int): DpfObject
    requires Sound(p)
  {
    DpfObject(DPUFlavor, MANAGED_NAMESPACE, DeterministicName(p, MANAGED_NAMESPACE, node, "vf-request"),
              OwnerLabels("DpuNode", MANAGED_NAMESPACE, node),
              map["node" := JString(node), "numVfs" := JInt(count)], None)
  }

  function NfInterface(n: NfScheme, req: NfRequest, role: string, iface: string): DpfObject {
    DpfObject(DPUServiceInterface, MANAGED_NAMESPACE, n.base(req) + role, n.labels(req),
              map["interfaceType" := JString("physical"), "interfaceName" := JString(iface),
                  "node" := JString(n.node)],
              None)
  }

  function NfHop(n: NfScheme, req: NfRequest): DpfObject {
    var base := n.base(req);
    DpfObject(DPUServiceChain, MANAGED_NAMESPACE, base + "-hop", n.labels(req),
              map["node" := JString(n.node),
                  "hops" := JList([JMap(map["interfaces" := JList([JString(base + "-in"), JString(base + "-out")])])])],
              None)
  }

  function NfPlan(n: NfScheme, req: NfRequest): seq<DpfObject> {
    [NfInterface(n, req, "-in", req.input), NfInterface(n, req, "-out", req.output), NfHop(n, req)]
  }

  /** The store keys of one request's objects. */
  function NfKeys(n: NfScheme, req: NfRequest): seq<string> {
    KeysOfBase(n.base(req))
  }

  function KeysOfBase(base: string): seq<string> {
    [KeyOf(DPUServiceInterface, MANAGED_NAMESPACE, base + "-in"),
     KeyOf(DPUServiceInterface, MANAGED_NAMESPACE, base + "-out"),
     KeyOf(DPUServiceChain, MANAGED_NAMESPACE, base + "-hop")]
  }

  /** The labels that mark an object as belonging to some request of the node. */
  ghost predicate MarkedFor(labels: map<string, string>, node: string) {
    && OWNER_KIND in labels && labels[OWNER_KIND] == "NFRequest"
    && OWNER_NAMESPACE in labels && labels[OWNER_NAMESPACE] == node
  }

  // ---- Distinct requests have distinct keys --------------------------------------------

  ghost predicate Plain(req: NfRequest) {
    '|' !in req.input && '|' !in req.output && '|' !in req.bridge
  }

  ghost predicate CollisionFree(p: Platform, node: string, requests: set<NfRequest>)
    requires Sound(p)
  {
    forall a, b | a in requests && b in requests && RequestHash(p, node, a) == RequestHash(p, node, b) ::
      HashInput(node, a) == HashInput(node, b)
  }

  /** The hashed text determines the request when no field contains the separator. */
  lemma HashInputInjective(node: string, a: NfRequest, b: NfRequest)
    requires '|' !in node && Plain(a) && Plain(b)
    requires HashInput(node, a) == HashInput(node, b)
    ensures a == b
  {
    var restA, restB := a.output + "|" + a.bridge, b.output + "|" + b.bridge;
    assert HashInput(node, a) == node + "|" + (a.input + "|" + restA);
    assert HashInput(node, b) == node + "|" + (b.input + "|" + restB);
    SplitOnce(node, a.input + "|" + restA, node, b.input + "|" + restB, '|');
    SplitOnce(a.input, restA, b.input, restB, '|');
    SplitOnce(a.output, a.bridge, b.output, b.bridge, '|');
  }

  /** Why the separator is excluded: requests that differ only in which field holds it share all three
      objects, so deleting either deletes the other's. */
  lemma SeparatorsCollide(p: Platform, node: string, x: string, y: string, z: string, bridge: string)
    requires Sound(p)
    ensures var a, b := NfRequest(x + "|" + y, z, bridge), NfRequest(x, y + "|" + z, bridge);
            a != b && NfKeys(StandardNfScheme(p, node), a) == NfKeys(StandardNfScheme(p, node), b)
  {
    var a, b := NfRequest(x + "|" + y, z, bridge), NfRequest(x, y + "|" + z, bridge);
    assert |a.input| != |b.input|;
    SameHashInput(node, x, y, z, bridge);
    assert BaseName(p, node, a) == BaseName(p, node, b);
  }

  lemma SameHashInput(node: string, x: string, y: string, z: string, bridge: string)
    ensures HashInput(node, NfRequest(x + "|" + y, z, bridge)) == HashInput(node, NfRequest(x, y + "|" + z, bridge))
  {
    assert node + "|" + (x + "|" + y) + "|" + z + "|" + bridge == node + "|" + x + "|" + (y + "|" + z) + "|" + bridge;
  }

  /** A request hash is already a clean name, so it survives into the object names in full. */
  lemma BaseNameShape(p: Platform, node: string, req: NfRequest)
    requires Sound(p)
    ensures |BaseName(p, node, req)| == 25 && BaseName(p, node, req)[13..] == RequestHash(p, node, req)
  {
    var h := RequestHash(p, node, req);
    assert Hex(p.sha1(HashInput(node, req)), 40);
    assert Hex(h, 12);
    NameShape(p.sha1(node + "/" + h + "/" + "nf")[..8], h);
  }

  lemma NameShape(hashed: string, h: string)
    requires |hashed| == 8 && |h| == 12
    ensures |"opi-" + hashed + "-" + h| == 25 && ("opi-" + hashed + "-" + h)[13..] == h
  {
    assert "opi-" + hashed + "-" + h == ("opi-" + hashed + "-") + h;
    Tail("opi-" + hashed + "-", h);
  }

  lemma Tail(prefix: string, h: string)
    ensures (prefix + h)[|prefix|..] == h
  {
  }

  /** What the refinement needs of a scheme on the requests in play. */
  ghost predicate Separates(n: NfScheme, requests: set<NfRequest>) {
    && (forall a :: |n.base(a)| == 25 && MarkedFor(n.labels(a), n.node))
    && (forall a, b | a in requests && b in requests && a != b :: n.base(a) != n.base(b))
  }

  /** The source's scheme separates requests when their fields are free of the separator and their
      truncated hashes do not collide; the short hash in front of the name is not needed for it. */
  lemma StandardSchemeSeparates(p: Platform, node: string, requests: set<NfRequest>)
    requires Sound(p) && '|' !in node && CollisionFree(p, node, requests) && forall a | a in requests :: Plain(a)
    ensures Separates(StandardNfScheme(p, node), requests)
  {
    var n := StandardNfScheme(p, node);
    forall a
      ensures |n.base(a)| == 25 && MarkedFor(n.labels(a), node)
    {
      BaseNameShape(p, node, a);
      LabelsMark(node, RequestHash(p, node, a), p.clean(a.bridge));
    }
    forall a, b | a in requests && b in requests && n.base(a) == n.base(b)
      ensures a == b
    {
      BaseNameShape(p, node, a);
      BaseNameShape(p, node, b);
      HashInputInjective(node, a, b);
    }
  }

  lemma LabelsMark(node: string, hash: string, bridge: string)
    ensures MarkedFor(OwnerLabels("NFRequest", node, hash)[BRIDGE_ID := bridge], node)
  {
    assert |OWNER_KIND| == 29 && |OWNER_NAME| == 29 && OWNER_KIND[25] == 'k' && OWNER_NAME[25] == 'n';
    assert |OWNER_NAMESPACE| == 34 && |COMPONENT| == 28 && |BRIDGE_ID| == 28;
  }

  lemma SharedKeyMeansSameBase(a: string, b: string, i: nat, j: nat)
    requires |a| == |b| && i < 3 && j < 3 && KeysOfBase(a)[i] == KeysOfBase(b)[j]
    ensures i == j && a == b
  {
    var roles := ["-in", "-out", "-hop"];
    var kinds := [DPUServiceInterface, DPUServiceInterface, DPUServiceChain];
    var o := DpfObject(kinds[i], MANAGED_NAMESPACE, a + roles[i], map[], map[], None);
    var q := DpfObject(kinds[j], MANAGED_NAMESPACE, b + roles[j], map[], map[], None);
    assert Key(o) == KeysOfBase(a)[i] && Key(q) == KeysOfBase(b)[j];
    KeyFixesKind(o, q);
    Tail(MANAGED_NAMESPACE + "/", o.name);
    Tail(MANAGED_NAMESPACE + "/", q.name);
    assert o.name == q.name;
    assert |o.name| == |a| + |roles[i]| && |q.name| == |b| + |roles[j]|;
    assert o.name[..|a|] == a && q.name[..|b|] == b;
  }

  /** Three pairwise distinct keys per request, and no key shared between two requests. */
  lemma KeysAreDisjoint(n: NfScheme, requests: set<NfRequest>, a: NfRequest, b: NfRequest)
    requires Separates(n, requests) && a in requests && b in requests
    ensures Distinct(NfKeys(n, a))
    ensures a != b ==> forall k | k in NfKeys(n, a) :: k !in NfKeys(n, b)
  {
    forall i, j | 0 <= i < j < 3
      ensures NfKeys(n, a)[i] != NfKeys(n, a)[j]
    {
      if NfKeys(n, a)[i] == NfKeys(n, a)[j] {
        SharedKeyMeansSameBase(n.base(a), n.base(a), i, j);
      }
    }
    forall k | a != b && k in NfKeys(n, a)
      ensures k !in NfKeys(n, b)
    {
      if k in NfKeys(n, b) {
        var i :| 0 <= i < 3 && NfKeys(n, a)[i] == k;
        var j :| 0 <= j < 3 && NfKeys(n, b)[j] == k;
        SharedKeyMeansSameBase(n.base(a), n.base(b), i, j);
      }
    }
  }

  // ---- The calls -----------------------------------------------------------------------

  /** A report DPF writes on some object, by its store key. */
  datatype Report = Report(key: string, conditions: Option<seq<Condition>>)

  function ReportedAll(objects: Objects, reports: seq<Report>): Objects {
    if reports == [] then objects
    else
      var last := reports[|reports| - 1];
      WithConditions(ReportedAll(objects, reports[..|reports| - 1]), last.key, last.conditions)
  }

  datatype Outcome = Ok | Unavailable | Cancelled | FailedPrecondition

  /** What a bounded wait meets: the clock at each poll, whether the context is cancelled by then,
      what DPF reports before it, and how many virtual functions the host lists. Between polls the
      caller sleeps. */
  datatype World = World(clock: nat -> int, cancelled: nat -> bool, reports: nat -> seq<Report>, vfs: nat -> Vfs)

  datatype Vfs = Vfs(count: int, listed: bool)

  /** Every poll comes at least a tick after the one before it. */
  ghost predicate Advances(w: World, tick: int) {
    forall i: nat, j: nat | j == i + 1 :: w.clock(j) >= w.clock(i) + tick
  }

  function ReportsBy(w: World, polls: nat): seq<Report> {
    if polls == 0 then [] else ReportsBy(w, polls - 1) + w.reports(polls - 1)
  }

  /** The conditions last reported on a key, or those it had to begin with. */
  function LastSaid(had: Option<seq<Condition>>, reports: seq<Report>, k: string): Option<seq<Condition>> {
    if reports == [] then had
    else
      var last := reports[|reports| - 1];
      if last.key == k then last.conditions else LastSaid(had, reports[..|reports| - 1], k)
  }

  lemma {:induction false} ReportedAt(objects: Objects, reports: seq<Report>, k: string)
    requires k in objects
    ensures var after := ReportedAll(objects, reports);
            k in after && after[k] == objects[k].(conditions := LastSaid(objects[k].conditions, reports, k))
  {
    if reports != [] {
      ReportedAt(objects, reports[..|reports| - 1], k);
    }
  }

  /** At poll i, what DPF last said of k holds a true Ready. */
  ghost function ProgrammedPolls(had: Option<seq<Condition>>, w: World, k: string): nat -> bool {
    (i: nat) => TrueReady(LastSaid(had, ReportsBy(w, i + 1), k))
  }

  /** Whether the chain stored under k is Ready at poll i. */
  predicate ReadyAt(start: Objects, w: World, k: string, i: nat) {
    var objects := ReportedAll(start, ReportsBy(w, i + 1));
    k in objects && IsReady(objects[k])
  }

  ghost function ReadyPolls(start: Objects, w: World, k: string): nat -> bool {
    (i: nat) => ReadyAt(start, w, k, i)
  }

  ghost predicate IsReadyPolls(f: nat -> bool, start: Objects, w: World, chainName: string) {
    f == ReadyPolls(start, w, KeyOf(DPUServiceChain, MANAGED_NAMESPACE, chainName))
  }

  /** `done` says when the chain of that name is Ready. (The equation is kept behind a quantifier so that
      using `done` does not unfold the store at every poll.) */
  ghost predicate Decides(done: nat -> bool, start: Objects, w: World, chainName: string) {
    forall f | IsReadyPolls(f, start, w, chainName) :: f == done
  }

  ghost function ActuatedPolls(w: World, count: int): nat -> bool {
    (i: nat) => w.vfs(i) == Vfs(count, true)
  }

  /** The i-th poll neither finds the context cancelled nor ends the wait. */
  ghost predicate WaitsOn(w: World, deadline: int, done: nat -> bool, i: nat) {
    w.clock(i) < deadline && !w.cancelled(i) && !done(i)
  }

  /** Exactly how a bounded wait ends: at the first poll that is cancelled or done, cancellation first,
      or at the first moment past the deadline. */
  ghost predicate Ends(w: World, deadline: int, done: nat -> bool, polls: nat, outcome: Outcome) {
    match outcome
    case Unavailable => w.clock(polls) >= deadline && forall i: nat | i < polls :: WaitsOn(w, deadline, done, i)
    case FailedPrecondition => false
    case _ =>
      && polls > 0 && w.clock(polls - 1) < deadline
      && (forall i: nat | i < polls - 1 :: WaitsOn(w, deadline, done, i))
      && (outcome.Cancelled? <==> w.cancelled(polls - 1))
      && (outcome.Ok? ==> done(polls - 1))
  }

  /** The wait for the chain under k ends as soon as what DPF last said of it holds a true Ready, and success
      means that it does at the end. */
  ghost predicate EndsWhenProgrammed(before: Objects, after: Objects, k: string, w: World, deadline: int, polls: nat,
                                     outcome: Outcome) {
    && Ends(w, deadline, ProgrammedPolls(ConditionsAt(before, k), w, k), polls, outcome)
    && (outcome.Ok? ==> k in after && TrueReady(after[k].conditions))
  }

  lemma EndsAlike(w: World, deadline: int, f: nat -> bool, g: nat -> bool, polls: nat, outcome: Outcome)
    requires Ends(w, deadline, f, polls, outcome) && forall i: nat :: f(i) == g(i)
    ensures Ends(w, deadline, g, polls, outcome)
  {
    assert forall i: nat :: WaitsOn(w, deadline, f, i) == WaitsOn(w, deadline, g, i);
  }

  lemma ReadyIsProgrammed(objects: Objects, w: World, k: string, i: nat)
    requires k in objects
    ensures ReadyPolls(objects, w, k)(i) == ProgrammedPolls(objects[k].conditions, w, k)(i)
  {
    var reports := ReportsBy(w, i + 1);
    ReportedAt(objects, reports, k);
    ReadyMeansTrue(ReportedAll(objects, reports)[k]);
  }

  // ---- What a create puts in place -----------------------------------------------------

  ghost predicate Holds(objects: Objects, k: string, labels: map<string, string>, spec: map<string, Json>) {
    k in objects && objects[k].labels == labels && objects[k].spec == spec
  }

  /** The request's three objects: the ingress interface on its input, the egress interface on its output and
      the hop that names the two, all on the node. */
  ghost predicate InPlace(n: NfScheme, objects: Objects, req: NfRequest) {
    var base := n.base(req);
    && Holds(objects, KeyOf(DPUServiceInterface, "opi-nvidia-system", base + "-in"), n.labels(req),
             map["interfaceType" := JString("physical"), "interfaceName" := JString(req.input),
                 "node" := JString(n.node)])
    && Holds(objects, KeyOf(DPUServiceInterface, "opi-nvidia-system", base + "-out"), n.labels(req),
             map["interfaceType" := JString("physical"), "interfaceName" := JString(req.output),
                 "node" := JString(n.node)])
    && Holds(objects, KeyOf(DPUServiceChain, "opi-nvidia-system", base + "-hop"), n.labels(req),
             map["node" := JString(n.node),
                 "hops" := JList([JMap(map["interfaces" := JList([JString(base + "-in"), JString(base + "-out")])])])])
  }

  /** What a spec-only plan with distinct keys leaves under each of them. */
  lemma DistinctPlanAt(objects: Objects, plan: seq<DpfObject>, keys: seq<string>, i: nat)
    requires |plan| == |keys| && (forall j | 0 <= j < |plan| :: Key(plan[j]) == keys[j])
    requires SpecOnly(plan) && Distinct(keys) && i < |plan|
    ensures var after := AppliedAll(objects, plan);
            keys[i] in after && after[keys[i]] == plan[i].(conditions := ConditionsAt(objects, keys[i]))
  {
    AppliedAllAt(objects, plan, keys[i]);
    assert plan[i] in plan && Planned(plan, keys[i]);
    var o := AppliedAll(objects, plan)[keys[i]].(conditions := None);
    var j :| 0 <= j < |plan| && plan[j] == o && Key(o) == keys[i];
    assert j == i;
  }

  lemma NfKeysAreDistinct(n: NfScheme, req: NfRequest)
    ensures Distinct(NfKeys(n, req))
  {
    forall i, j | 0 <= i < j < 3
      ensures NfKeys(n, req)[i] != NfKeys(n, req)[j]
    {
      if NfKeys(n, req)[i] == NfKeys(n, req)[j] {
        SharedKeyMeansSameBase(n.base(req), n.base(req), i, j);
      }
    }
  }

  /** A create puts the three objects in place, whatever was there, and keeps what DPF has said of the chain. */
  lemma CreatePutsInPlace(n: NfScheme, objects: Objects, req: NfRequest)
    ensures var after := AppliedAll(objects, NfPlan(n, req));
            && InPlace(n, after, req)
            && NfKeys(n, req)[2] in after
            && after[NfKeys(n, req)[2]].conditions == ConditionsAt(objects, NfKeys(n, req)[2])
  {
    PlanKeys(n, req);
    NfKeysAreDistinct(n, req);
    DistinctPlanAt(objects, NfPlan(n, req), NfKeys(n, req), 0);
    DistinctPlanAt(objects, NfPlan(n, req), NfKeys(n, req), 1);
    DistinctPlanAt(objects, NfPlan(n, req), NfKeys(n, req), 2);
  }

  /** The third key of a request is its chain's. */
  lemma ThirdKeyIsTheChain(n: NfScheme, req: NfRequest)
    ensures NfKeys(n, req)[2] == KeyOf(DPUServiceChain, "opi-nvidia-system", n.base(req) + "-hop")
  {
  }

  lemma ReportsKeepInPlace(n: NfScheme, objects: Objects, req: NfRequest, reports: seq<Report>)
    requires InPlace(n, objects, req)
    ensures InPlace(n, ReportedAll(objects, reports), req)
  {
    var base := n.base(req);
    ReportedAt(objects, reports, KeyOf(DPUServiceInterface, "opi-nvidia-system", base + "-in"));
    ReportedAt(objects, reports, KeyOf(DPUServiceInterface, "opi-nvidia-system", base + "-out"));
    ReportedAt(objects, reports, KeyOf(DPUServiceChain, "opi-nvidia-system", base + "-hop"));
  }

  lemma OneTickMore(polls: nat, tick: int)
    ensures (polls + 1) * tick == polls * tick + tick
  {
  }

  class NvidiaVsp {
    const client: InMemoryClient
    const scheme: NfScheme
    const nfTimeout: int
    const vfTimeout: int
    const poll: int

    constructor (client: InMemoryClient, scheme: NfScheme, nfTimeout: int, vfTimeout: int, poll: int)
      ensures this.client == client && this.scheme == scheme
      ensures this.nfTimeout == nfTimeout && this.vfTimeout == vfTimeout && this.poll == poll
    {
      this.client := client;
      this.scheme := scheme;
      this.nfTimeout := nfTimeout;
      this.vfTimeout := vfTimeout;
      this.poll := poll;
    }

    /** The least time that passes between two polls. */
    function Tick(): (r: int)
      ensures r >= 1
    {
      if poll > 1 then poll else 1
    }

    /** Success is reported exactly at the first poll before the deadline, not cancelled, at which the last thing
        DPF has said of the request's chain holds a true Ready; otherwise the wait ends within the timeout.
        Either way the request's objects are in place. */
    method CreateNetworkFunction(req: NfRequest, w: World) returns (outcome: Outcome, polls: nat)
      requires Advances(w, Tick())
      modifies client
      ensures InPlace(scheme, client.objects, req)
      ensures client.objects == ReportedAll(AppliedAll(old(client.objects), NfPlan(scheme, req)), ReportsBy(w, polls))
      ensures var k := NfKeys(scheme, req)[2];
              EndsWhenProgrammed(old(client.objects), client.objects, k, w, w.clock(0) + nfTimeout, polls, outcome)
      ensures polls > 0 ==> (polls - 1) * Tick() < nfTimeout
    {
      var plan := NfPlan(scheme, req);
      PlanKeys(scheme, req);
      ApplyEach(plan);
      ghost var applied, k := client.objects, NfKeys(scheme, req)[2];
      ghost var done := ReadyPolls(applied, w, k);
      outcome, polls := AwaitReady(plan[|plan| - 1].name, w, done);
      Created(scheme, old(client.objects), applied, req, w, w.clock(0) + nfTimeout, polls, outcome);
    }

    /** Polls for the Ready condition of a chain: the deadline first, the sleep last. */
    method AwaitReady(chainName: string, w: World, ghost done: nat -> bool) returns (outcome: Outcome, polls: nat)
      requires Advances(w, Tick())
      requires Decides(done, client.objects, w, chainName)
      modifies client
      ensures client.objects == ReportedAll(old(client.objects), ReportsBy(w, polls))
      ensures Ends(w, w.clock(0) + nfTimeout, done, polls, outcome)
      ensures polls > 0 ==> (polls - 1) * Tick() < nfTimeout
    {
      ghost var start := client.objects;
      var deadline := w.clock(0) + nfTimeout;
      var tick := Tick();
      polls := 0;
      while w.clock(polls) < deadline
        invariant client.objects == ReportedAll(start, ReportsBy(w, polls))
        invariant forall i: nat | i < polls :: WaitsOn(w, deadline, done, i)
        invariant w.clock(polls) >= w.clock(0) + polls * tick
        invariant polls > 0 ==> (polls - 1) * tick < nfTimeout
        decreases deadline - w.clock(polls)
      {
        SetRound(w, polls, start);
        OneTickMore(polls, tick);
        polls := polls + 1;
        if w.cancelled(polls - 1) {
          return Cancelled, polls;
        }
        var ready := PollChain(chainName, start, w, polls - 1, done);
        if ready {
          return Ok, polls;
        }
      }
      outcome := Unavailable;
    }

    method PollChain(chainName: string, ghost start: Objects, ghost w: World, ghost i: nat, ghost done: nat -> bool)
        returns (ready: bool)
      requires client.objects == ReportedAll(start, ReportsBy(w, i + 1))
      requires Decides(done, start, w, chainName)
      ensures ready == done(i)
    {
      ghost var polls := ReadyPolls(start, w, KeyOf(DPUServiceChain, MANAGED_NAMESPACE, chainName));
      assert IsReadyPolls(polls, start, w, chainName);
      var chain := client.Get(DPUServiceChain, MANAGED_NAMESPACE, chainName);
      ready := chain.Some? && IsReady(chain.value);
    }

    /** What DPF reports before poll i. */
    method SetRound(w: World, i: nat, ghost start: Objects)
      requires client.objects == ReportedAll(start, ReportsBy(w, i))
      modifies client
      ensures client.objects == ReportedAll(start, ReportsBy(w, i + 1))
    {
      SetAll(w.reports(i), ReportsBy(w, i), start);
    }

    /** Never asks for fewer virtual functions than pods hold, and never reports a number the host did
        not list: success is the number asked for, a timeout reports the last listing. */
    method SetNumVfs(count: int, inUse: int, w: World) returns (outcome: Outcome, reported: int, polls: nat)
      requires Advances(w, Tick())
      modifies client
      ensures outcome.FailedPrecondition? <==> count < inUse
      ensures client.objects == if count < inUse then old(client.objects)
                                else Applied(old(client.objects), scheme.vfRequest(count))
      ensures count >= inUse ==>
                && Ends(w, w.clock(0) + vfTimeout, ActuatedPolls(w, count), polls, outcome)
                && (polls > 0 ==> (polls - 1) * Tick() < vfTimeout)
      ensures reported == if outcome.Ok? then count else if outcome.Unavailable? then w.vfs(polls).count else 0
    {
      polls := 0;
      if count < inUse {
        return FailedPrecondition, 0, 0;
      }
      client.Apply(scheme.vfRequest(count));
      ghost var done := ActuatedPolls(w, count);
      ghost var applied := client.objects;
      var tick := Tick();
      var deadline := w.clock(0) + vfTimeout;
      while w.clock(polls) < deadline
        invariant client.objects == applied
        invariant forall i: nat | i < polls :: WaitsOn(w, deadline, done, i)
        invariant w.clock(polls) >= w.clock(0) + polls * tick
        invariant polls > 0 ==> (polls - 1) * tick < vfTimeout
        decreases deadline - w.clock(polls)
      {
        OneTickMore(polls, tick);
        polls := polls + 1;
        if w.cancelled(polls - 1) {
          return Cancelled, 0, polls;
        }
        var pcis := w.vfs(polls - 1);
        assert done(polls - 1) == (pcis.listed && pcis.count == count);
        if pcis.listed && pcis.count == count {
          return Ok, pcis.count, polls;
        }
      }
      return Unavailable, w.vfs(polls).count, polls;
    }

    method DeleteNetworkFunction(req: NfRequest)
      modifies client
      ensures client.objects == Without(old(client.objects), NfKeys(scheme, req))
    {
      var plan := NfPlan(scheme, req);
      PlanKeys(scheme, req);
      ghost var keys := NfKeys(scheme, req);
      DeleteEach(plan, keys);
    }

    method DeleteEach(plan: seq<DpfObject>, ghost keys: seq<string>)
      requires |plan| == |keys| && forall i | 0 <= i < |plan| :: Key(plan[i]) == keys[i]
      modifies client
      ensures client.objects == Without(old(client.objects), keys)
    {
      ghost var start := client.objects;
      for i := 0 to |plan|
        invariant client.objects == Without(start, keys[..i])
      {
        WithoutSnoc(start, keys, i);
        client.Delete(plan[i].gvk, plan[i].namespace, plan[i].name);
      }
      assert keys[..|keys|] == keys;
    }

    method ApplyEach(plan: seq<DpfObject>)
      modifies client
      ensures client.objects == AppliedAll(old(client.objects), plan)
    {
      for i := 0 to |plan|
        invariant AppliedAll(client.objects, plan[i..]) == AppliedAll(old(client.objects), plan)
      {
        assert plan[i..][0] == plan[i] && plan[i..][1..] == plan[i + 1..];
        client.Apply(plan[i]);
      }
      assert plan[|plan|..] == [];
    }

    method SetAll(reports: seq<Report>, ghost before: seq<Report>, ghost applied: Objects)
      requires client.objects == ReportedAll(applied, before)
      modifies client
      ensures client.objects == ReportedAll(applied, before + reports)
    {
      assert before + reports[..0] == before;
      for j := 0 to |reports|
        invariant client.objects == ReportedAll(applied, before + reports[..j])
      {
        client.SetConditions(reports[j].key, reports[j].conditions);
        assert (before + reports[..j + 1])[..|before| + j] == before + reports[..j];
      }
      assert reports[..|reports|] == reports;
    }
  }

  lemma Created(n: NfScheme, before: Objects, applied: Objects, req: NfRequest, w: World, deadline: int, polls: nat,
                outcome: Outcome)
    requires applied == AppliedAll(before, NfPlan(n, req))
    requires Ends(w, deadline, ReadyPolls(applied, w, NfKeys(n, req)[2]), polls, outcome)
    ensures InPlace(n, ReportedAll(applied, ReportsBy(w, polls)), req)
    ensures var k := NfKeys(n, req)[2];
            EndsWhenProgrammed(before, ReportedAll(applied, ReportsBy(w, polls)), k, w, deadline, polls, outcome)
  {
    var k := NfKeys(n, req)[2];
    CreatePutsInPlace(n, before, req);
    ReportsKeepInPlace(n, applied, req, ReportsBy(w, polls));
    forall i: nat
      ensures ReadyPolls(applied, w, k)(i) == ProgrammedPolls(ConditionsAt(before, k), w, k)(i)
    {
      ReadyIsProgrammed(applied, w, k, i);
    }
    EndsAlike(w, deadline, ReadyPolls(applied, w, k), ProgrammedPolls(ConditionsAt(before, k), w, k), polls, outcome);
    ReportedAt(applied, ReportsBy(w, polls), k);
  }

  lemma PlanKeys(n: NfScheme, req: NfRequest)
    ensures |NfPlan(n, req)| == 3 && |NfKeys(n, req)| == 3
    ensures forall i | 0 <= i < 3 :: Key(NfPlan(n, req)[i]) == NfKeys(n, req)[i]
  {
  }

  // ---- The store refines a set of active requests --------------------------------------

  datatype Call = Create(req: NfRequest) | Delete(req: NfRequest) | DpfReports(reports: seq<Report>)

  ghost function AfterCall(n: NfScheme, objects: Objects, call: Call): Objects {
    match call
    case Create(req) => AppliedAll(objects, NfPlan(n, req))
    case Delete(req) => Without(objects, NfKeys(n, req))
    case DpfReports(reports) => ReportedAll(objects, reports)
  }

  ghost function RunCalls(n: NfScheme, objects: Objects, calls: seq<Call>): Objects {
    if calls == [] then objects
    else AfterCall(n, RunCalls(n, objects, calls[..|calls| - 1]), calls[|calls| - 1])
  }

  /** The request's last call is a create. */
  ghost predicate Active(calls: seq<Call>, req: NfRequest) {
    exists i | 0 <= i < |calls| :: calls[i] == Create(req) && forall j | i < j < |calls| :: calls[j] != Delete(req)
  }

  ghost predicate InPlay(calls: seq<Call>, requests: set<NfRequest>) {
    forall c | c in calls && !c.DpfReports? :: c.req in requests
  }

  ghost predicate OwnedByNode(n: NfScheme, objects: Objects, k: string) {
    k in objects && MarkedFor(objects[k].labels, n.node)
  }

  lemma {:induction false} ReportsKeepOwners(objects: Objects, reports: seq<Report>)
    ensures ReportedAll(objects, reports).Keys == objects.Keys
    ensures forall k | k in objects :: ReportedAll(objects, reports)[k].labels == objects[k].labels
  {
    if reports != [] {
      ReportsKeepOwners(objects, reports[..|reports| - 1]);
    }
  }

  lemma CreateAt(n: NfScheme, objects: Objects, req: NfRequest, k: string)
    requires MarkedFor(n.labels(req), n.node)
    ensures var after := AppliedAll(objects, NfPlan(n, req));
            && (k in NfKeys(n, req) ==> OwnedByNode(n, after, k))
            && (k !in NfKeys(n, req) ==> (k in after <==> k in objects) && (k in objects ==> after[k] == objects[k]))
  {
    PlanKeys(n, req);
    ApplyPlanAt(objects, NfPlan(n, req), NfKeys(n, req), n.labels(req), k);
  }

  lemma ApplyPlanAt(objects: Objects, plan: seq<DpfObject>, keys: seq<string>, labels: map<string, string>, k: string)
    requires |plan| == |keys| && forall i | 0 <= i < |plan| :: Key(plan[i]) == keys[i]
    requires SpecOnly(plan) && forall o | o in plan :: o.labels == labels
    ensures var after := AppliedAll(objects, plan);
            && (k in keys ==> k in after && after[k].labels == labels)
            && (k !in keys ==> (k in after <==> k in objects) && (k in objects ==> after[k] == objects[k]))
  {
    AppliedAllAt(objects, plan, k);
    PlannedExactly(plan, keys, k);
  }

  lemma PlannedExactly(plan: seq<DpfObject>, keys: seq<string>, k: string)
    requires |plan| == |keys| && forall i | 0 <= i < |plan| :: Key(plan[i]) == keys[i]
    ensures Planned(plan, k) <==> k in keys
  {
    if k in keys {
      var i :| 0 <= i < |keys| && keys[i] == k;
      assert plan[i] in plan;
    }
  }

  /** A call touches the keys of its own request and nothing else in the store. */
  lemma CallsTouchOnlyTheirOwn(n: NfScheme, objects: Objects, call: Call, k: string)
    requires !call.DpfReports? && k !in NfKeys(n, call.req) && MarkedFor(n.labels(call.req), n.node)
    ensures var after := AfterCall(n, objects, call);
            (k in after <==> k in objects) && (k in objects ==> after[k] == objects[k])
  {
    if call.Create? {
      CreateAt(n, objects, call.req, k);
    }
  }

  /** What one call does to the ownership of one key. */
  lemma OwnershipAfterCall(n: NfScheme, objects: Objects, call: Call, k: string)
    requires !call.DpfReports? ==> MarkedFor(n.labels(call.req), n.node)
    ensures OwnedByNode(n, AfterCall(n, objects, call), k) <==>
              if call.DpfReports? || k !in NfKeys(n, call.req) then OwnedByNode(n, objects, k) else call.Create?
  {
    if call.DpfReports? {
      ReportsKeepOwners(objects, call.reports);
    } else if call.Create? {
      CreateAt(n, objects, call.req, k);
    }
  }

  ghost predicate KeyOfActive(n: NfScheme, calls: seq<Call>, requests: set<NfRequest>, k: string) {
    exists req :: req in requests && Active(calls, req) && k in NfKeys(n, req)
  }

  /** The abstract side of one call: the set of active requests changes by exactly its request. */
  lemma KeyOfActiveSnoc(n: NfScheme, front: seq<Call>, last: Call, requests: set<NfRequest>, k: string)
    requires Separates(n, requests) && (!last.DpfReports? ==> last.req in requests)
    ensures KeyOfActive(n, front + [last], requests, k) <==>
              if last.DpfReports? || k !in NfKeys(n, last.req) then KeyOfActive(n, front, requests, k) else last.Create?
  {
    forall req
      ensures Active(front + [last], req) <==> (last == Create(req) || (Active(front, req) && last != Delete(req)))
    {
      ActiveSnoc(front, last, req);
    }
    if !last.DpfReports? && k in NfKeys(n, last.req) {
      forall req | req in requests && req != last.req
        ensures k !in NfKeys(n, req)
      {
        KeysAreDisjoint(n, requests, last.req, req);
      }
    }
  }

  lemma {:induction false} RefinesForScheme(n: NfScheme, start: Objects, calls: seq<Call>, requests: set<NfRequest>,
                                            k: string)
    requires Separates(n, requests) && InPlay(calls, requests) && !OwnedByNode(n, start, k)
    ensures OwnedByNode(n, RunCalls(n, start, calls), k) <==> KeyOfActive(n, calls, requests, k)
  {
    if calls != [] {
      var front, last := calls[..|calls| - 1], calls[|calls| - 1];
      FrontInPlay(calls, requests);
      RefinesForScheme(n, start, front, requests, k);
      RefinementStep(n, RunCalls(n, start, front), front, last, requests, k);
      assert front + [last] == calls;
    }
  }

  lemma FrontInPlay(calls: seq<Call>, requests: set<NfRequest>)
    requires calls != [] && InPlay(calls, requests)
    ensures InPlay(calls[..|calls| - 1], requests)
    ensures !calls[|calls| - 1].DpfReports? ==> calls[|calls| - 1].req in requests
  {
    assert calls[|calls| - 1] in calls;
  }

  lemma RefinementStep(n: NfScheme, objects: Objects, front: seq<Call>, last: Call, requests: set<NfRequest>, k: string)
    requires Separates(n, requests) && (!last.DpfReports? ==> last.req in requests)
    requires OwnedByNode(n, objects, k) <==> KeyOfActive(n, front, requests, k)
    ensures OwnedByNode(n, AfterCall(n, objects, last), k) <==> KeyOfActive(n, front + [last], requests, k)
  {
    OwnershipAfterCall(n, objects, last, k);
    KeyOfActiveSnoc(n, front, last, requests, k);
  }

  /** After any sequence of calls, timed-out creates and DPF's reports included, the objects labelled
      as this node's requests are exactly the three of each request whose last call is a create. */
  lemma StoreRefinesActiveRequests(p: Platform, node: string, start: Objects, calls: seq<Call>,
                                   requests: set<NfRequest>)
    requires Sound(p) && '|' !in node && CollisionFree(p, node, requests) && forall a | a in requests :: Plain(a)
    requires InPlay(calls, requests)
    requires forall k :: !OwnedByNode(StandardNfScheme(p, node), start, k)
    ensures var n := StandardNfScheme(p, node);
            && (forall k :: OwnedByNode(n, RunCalls(n, start, calls), k) <==> KeyOfActive(n, calls, requests, k))
            && (forall a, b | a in requests && b in requests ::
                  && |NfKeys(n, a)| == 3 && Distinct(NfKeys(n, a))
                  && (a != b ==> forall k | k in NfKeys(n, a) :: k !in NfKeys(n, b)))
  {
    var n := StandardNfScheme(p, node);
    StandardSchemeSeparates(p, node, requests);
    forall k
      ensures OwnedByNode(n, RunCalls(n, start, calls), k) <==> KeyOfActive(n, calls, requests, k)
    {
      RefinesForScheme(n, start, calls, requests, k);
    }
    forall a, b | a in requests && b in requests
      ensures |NfKeys(n, a)| == 3 && Distinct(NfKeys(n, a))
      ensures a != b ==> forall k | k in NfKeys(n, a) :: k !in NfKeys(n, b)
    {
      KeysAreDisjoint(n, requests, a, b);
    }
  }

  lemma OthersKeepInPlace(n: NfScheme, objects: Objects, call: Call, requests: set<NfRequest>, req: NfRequest)
    requires Separates(n, requests) && req in requests && InPlace(n, objects, req)
    requires !call.DpfReports? ==> call.req in requests && call.req != req
    ensures InPlace(n, AfterCall(n, objects, call), req)
  {
    if call.DpfReports? {
      ReportsKeepInPlace(n, objects, req, call.reports);
    } else {
      KeysAreDisjoint(n, requests, req, call.req);
      assert KeysOfBase(n.base(req)) == NfKeys(n, req);
      forall k | k in NfKeys(n, req)
        ensures k in AfterCall(n, objects, call) <==> k in objects
        ensures k in objects ==> AfterCall(n, objects, call)[k] == objects[k]
      {
        CallsTouchOnlyTheirOwn(n, objects, call, k);
      }
      assert forall i | 0 <= i < 3 :: KeysOfBase(n.base(req))[i] in NfKeys(n, req);
    }
  }

  /** After any calls the three objects of every request whose last call is a create are as that request asks,
      whatever other requests have done since. */
  lemma {:induction false} ActiveIsInPlace(n: NfScheme, start: Objects, calls: seq<Call>, requests: set<NfRequest>,
                                           req: NfRequest)
    requires Separates(n, requests) && InPlay(calls, requests) && req in requests && Active(calls, req)
    ensures InPlace(n, RunCalls(n, start, calls), req)
  {
    var front, last := calls[..|calls| - 1], calls[|calls| - 1];
    FrontInPlay(calls, requests);
    assert front + [last] == calls;
    ActiveSnoc(front, last, req);
    if last == Create(req) {
      CreatePutsInPlace(n, RunCalls(n, start, front), req);
    } else {
      ActiveIsInPlace(n, start, front, requests, req);
      OthersKeepInPlace(n, RunCalls(n, start, front), last, requests, req);
    }
  }

  /** How the source labels a request's objects: by node, request hash and bridge. */
  lemma StandardLabels(p: Platform, node: string, req: NfRequest)
    requires Sound(p)
    ensures var labels := StandardNfScheme(p, node).labels(req);
            labels == map["opi.opiproject.org/owner-kind" := "NFRequest",
                          "opi.opiproject.org/owner-namespace" := node,
                          "opi.opiproject.org/owner-name" := RequestHash(p, node, req),
                          "opi.opiproject.org/component" := "nvidia-vsp",
                          "opi.opiproject.org/bridge-id" := p.clean(req.bridge)]
  {
  }

  /** A request for virtual functions: however often it is made, one object of the node, which asks for the
      last number; conditions and everything else in the store stay. */
  lemma LastVfRequestStands(p: Platform, node: string, objects: Objects, first: int, second: int)
    requires Sound(p)
    ensures var n := StandardNfScheme(p, node);
            var k := Key(n.vfRequest(second));
            var once := Applied(objects, n.vfRequest(first));
            var after := Applied(once, n.vfRequest(second));
            && Holds(after, k, map["opi.opiproject.org/owner-kind" := "DpuNode",
                                   "opi.opiproject.org/owner-namespace" := "opi-nvidia-system",
                                   "opi.opiproject.org/owner-name" := node,
                                   "opi.opiproject.org/component" := "nvidia-vsp"],
                     map["node" := JString(node), "numVfs" := JInt(second)])
            && after[k].gvk == DPUFlavor && after[k].namespace == "opi-nvidia-system"
            && after[k].conditions == ConditionsAt(objects, k)
            && after == Applied(objects, n.vfRequest(second)) && after - {k} == objects - {k}
  {
  }

  lemma ActiveSnoc(front: seq<Call>, last: Call, req: NfRequest)
    ensures Active(front + [last], req) <==> (last == Create(req) || (Active(front, req) && last != Delete(req)))
  {
    var calls := front + [last];
    assert calls[|front|] == last;
    assert forall i | 0 <= i < |front| :: calls[i] == front[i];
    if Active(front, req) && last != Delete(req) {
      var i :| 0 <= i < |front| && front[i] == Create(req) && forall j | i < j < |front| :: front[j] != Delete(req);
      assert calls[i] == Create(req);
    }
  }
}
