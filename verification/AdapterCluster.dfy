/** The SFC adapter and its surroundings as one state machine. Every API call of a reconcile pass
    is one atomic step; users, the API server and the DPF controller act between any two steps.
    Each SFC key has its own worker, and a worker may lose a request, lose a reply or be restarted
    at any point. */
module AdapterCluster {
  import opened AdapterGates

  type Uid = nat

  datatype Key = Key(namespace: string, name: string)

  datatype Kind = Service | Chain

  /** A DPF child is identified by kind and name: all children live in one namespace, whatever
      the namespace of their SFC. */
  datatype ChildKey = ChildKey(kind: Kind, name: string)

  datatype Sfc = Sfc(uid: Uid, version: nat, generation: nat, image: string, finalizer: bool,
                     otherFinalizers: bool, deleting: bool, conditions: seq<Condition>)

  datatype ChildSpec = Image(image: string) | Selector(uid: Uid)

  datatype Child = Child(uid: Uid, owner: Uid, generation: nat, spec: ChildSpec, observed: nat,
                         ready: string, finalizer: bool, deleting: bool)

  /** What one Patch of a pass left behind. */
  datatype Receipt = Receipt(uid: Uid, generation: nat, spec: ChildSpec)

  datatype Seen = Seen(key: ChildKey, child: Child)

  /** Where a worker stands: the next API call it will make and what the pass carries so far.
      `copy` is the SFC as the pass read it. */
  datatype Pc =
    | Idle
    | AddingFinalizer(copy: Sfc)
    | ApplyingService(copy: Sfc)
    | ApplyingChain(copy: Sfc, receipts: map<ChildKey, Receipt>)
    | ListingServices(copy: Sfc, receipts: map<ChildKey, Receipt>)
    | ListingChains(copy: Sfc, receipts: map<ChildKey, Receipt>, seen: seq<Seen>)
    | WritingStatus(copy: Sfc, receipts: map<ChildKey, Receipt>, seen: seq<Seen>)
    | DoomedListingServices(copy: Sfc)
    | DoomedDeletingServices(copy: Sfc, todo: seq<ChildKey>, remaining: nat)
    | DoomedListingChains(copy: Sfc, remaining: nat)
    | DoomedDeletingChains(copy: Sfc, todo: seq<ChildKey>, remaining: nat)
    | ReleasingFinalizer(copy: Sfc)

  /** One accepted write of the status subresource, with the evidence of its pass. */
  datatype StatusWrite = StatusWrite(copy: Sfc, target: Condition, receipts: map<ChildKey, Receipt>, seen: seq<Seen>)

  /** `issued`, `declared` and `log` only record history: which key each SFC UID was issued for,
      the (child UID, generation) pairs DPF has declared Ready, and the status writes. */
  datatype Cluster = Cluster(sfcs: map<Key, Sfc>, children: map<ChildKey, Child>, workers: map<Key, Pc>,
                             clock: nat, nextUid: Uid, issued: map<Uid, Key>, declared: set<(Uid, nat)>,
                             log: seq<StatusWrite>)

  datatype Fault = Fine | RequestLost | ReplyLost

  datatype Event =
    // users and the API server
    | CreateSfc(key: Key, image: string, finalizer: bool, otherFinalizers: bool)
    | EditSfc(key: Key, image: string)
    | TouchSfc(key: Key, otherFinalizers: bool, conditions: seq<Condition>)
    | DeleteSfc(key: Key)
    | RemoveSfc(key: Key)
    | EditChild(child: ChildKey, spec: ChildSpec)
    | DeleteChild(child: ChildKey)
    // the DPF controller
    | HoldChild(child: ChildKey)
    | FinalizeChild(child: ChildKey)
    | ReportChild(child: ChildKey, generation: nat, ready: string)
    // the adapter
    | Work(key: Key, fault: Fault, listing: seq<ChildKey>)
    | RestartAdapter

  function Init(): Cluster {
    Cluster(map[], map[], map[], 0, 0, map[], {}, [])
  }

  function ChildOf(k: Key, kind: Kind): ChildKey {
    ChildKey(kind, k.name + if kind == Service then "-svc" else "-chain")
  }

  function DesiredSpec(s: Sfc, kind: Kind): ChildSpec {
    if kind == Service then Image(s.image) else Selector(s.uid)
  }

  function WorkerOf(c: Cluster, k: Key): Pc {
    if k in c.workers then c.workers[k] else Idle
  }

  // ---- Primitive writes ----------------------------------------------------------------

  /** Every write of an SFC gives it a resource version never used before. */
  function PutSfc(c: Cluster, k: Key, s: Sfc): Cluster {
    c.(sfcs := c.sfcs[k := s.(version := c.clock)], clock := c.clock + 1)
  }

  function PutChild(c: Cluster, ck: ChildKey, child: Child): Cluster {
    c.(children := c.children[ck := child])
  }

  function Goto(c: Cluster, k: Key, pc: Pc): Cluster {
    c.(workers := c.workers[k := pc])
  }

  /** A write of the spec moves the generation exactly when the spec changes. (Besides, the API server
      moves it once when an object is first marked for deletion, for SFCs and children alike.) */
  function Respec(child: Child, spec: ChildSpec): Child {
    child.(spec := spec, generation := child.generation + if child.spec == spec then 0 else 1)
  }

  /** Server-side apply with forced ownership: creates the child, or overwrites the label and
      spec of whatever child has that name. */
  function Patch(c: Cluster, ck: ChildKey, owner: Uid, spec: ChildSpec): Cluster {
    if ck in c.children then PutChild(c, ck, Respec(c.children[ck], spec).(owner := owner))
    else PutChild(c, ck, Child(c.nextUid, owner, 1, spec, 0, "", false, false)).(nextUid := c.nextUid + 1)
  }

  function ReceiptFor(c: Cluster, ck: ChildKey): Receipt
    requires ck in c.children
  {
    Receipt(c.children[ck].uid, c.children[ck].generation, c.children[ck].spec)
  }

  /** Deletion by name: a child that DPF holds is only marked. */
  function Remove(c: Cluster, ck: ChildKey): Cluster {
    if ck !in c.children then c
    else if c.children[ck].finalizer then
      var child := c.children[ck];
      PutChild(c, ck, child.(deleting := true, generation := child.generation + if child.deleting then 0 else 1))
    else c.(children := c.children - {ck})
  }

  predicate Labelled(c: Cluster, ck: ChildKey, kind: Kind, owner: Uid) {
    ck in c.children && ck.kind == kind && c.children[ck].owner == owner
  }

  /** A list call returns exactly the children of one kind with the owner's label, in any order. */
  ghost predicate Lists(c: Cluster, kind: Kind, owner: Uid, listing: seq<ChildKey>) {
    && (forall ck :: ck in listing <==> Labelled(c, ck, kind, owner))
    && (forall i, j | 0 <= i < j < |listing| :: listing[i] != listing[j])
  }

  function Project(c: Cluster, listing: seq<ChildKey>): seq<Seen>
    requires forall ck | ck in listing :: ck in c.children
  {
    seq(|listing|, i requires 0 <= i < |listing| => Seen(listing[i], c.children[listing[i]]))
  }

  function Statuses(seen: seq<Seen>): seq<ChildStatus> {
    seq(|seen|, i requires 0 <= i < |seen| =>
      ChildStatus(seen[i].key.name, seen[i].child.generation, seen[i].child.observed, seen[i].child.ready))
  }

  function TargetOf(copy: Sfc, seen: seq<Seen>): Condition {
    Verdict(Statuses(seen), copy.generation)
  }

  /** An update is accepted only against the version it was computed from. */
  predicate Current(c: Cluster, k: Key, copy: Sfc) {
    k in c.sfcs && c.sfcs[k].version == copy.version
  }

  // ---- The adapter ---------------------------------------------------------------------

  function StartPass(c: Cluster, k: Key): Pc {
    if k !in c.sfcs then Idle
    else
      var s := c.sfcs[k];
      if s.deleting then DoomedListingServices(s)
      else if !s.finalizer then AddingFinalizer(s)
      else ApplyingService(s)
  }

  /** One API call of the worker of key k. A lost request has no effect, a lost reply has its
      effect; both end the pass with an error. */
  ghost function WorkStep(c: Cluster, k: Key, fault: Fault, listing: seq<ChildKey>): Cluster {
    var pc := WorkerOf(c, k);
    if fault == RequestLost then Goto(c, k, Idle)
    else
      var ok := fault == Fine;
      match pc
      case Idle => Goto(c, k, if ok then StartPass(c, k) else Idle)
      case AddingFinalizer(copy) =>
        Goto(if Current(c, k, copy) then PutSfc(c, k, copy.(finalizer := true)) else c, k, Idle)
      case ApplyingService(copy) =>
        var ck := ChildOf(k, Service);
        var d := Patch(c, ck, copy.uid, DesiredSpec(copy, Service));
        Goto(d, k, if ok then ApplyingChain(copy, map[ck := ReceiptFor(d, ck)]) else Idle)
      case ApplyingChain(copy, receipts) =>
        var ck := ChildOf(k, Chain);
        var d := Patch(c, ck, copy.uid, DesiredSpec(copy, Chain));
        Goto(d, k, if ok then ListingServices(copy, receipts[ck := ReceiptFor(d, ck)]) else Idle)
      case ListingServices(copy, receipts) =>
        if !ok then Goto(c, k, Idle)
        else if !Lists(c, Service, copy.uid, listing) then c
        else Goto(c, k, ListingChains(copy, receipts, Project(c, listing)))
      case ListingChains(copy, receipts, seen) =>
        if !ok then Goto(c, k, Idle)
        else if !Lists(c, Chain, copy.uid, listing) then c
        else
          var all := seen + Project(c, listing);
          Goto(c, k, if SemanticallyEqual(copy.conditions, [TargetOf(copy, all)]) then Idle
                     else WritingStatus(copy, receipts, all))
      case WritingStatus(copy, receipts, seen) =>
        if !Current(c, k, copy) then Goto(c, k, Idle)
        else
          var target := TargetOf(copy, seen);
          var d := PutSfc(c, k, copy.(conditions := [target]));
          Goto(d.(log := d.log + [StatusWrite(copy, target, receipts, seen)]), k, Idle)
      case DoomedListingServices(copy) =>
        if !ok then Goto(c, k, Idle)
        else if !Lists(c, Service, copy.uid, listing) then c
        else Goto(c, k, if listing == [] then DoomedListingChains(copy, 0)
                        else DoomedDeletingServices(copy, listing, |listing|))
      case DoomedDeletingServices(copy, todo, remaining) =>
        if todo == [] then Goto(c, k, DoomedListingChains(copy, remaining))
        else
          Goto(Remove(c, todo[0]), k,
               if !ok then Idle
               else if |todo| == 1 then DoomedListingChains(copy, remaining)
               else DoomedDeletingServices(copy, todo[1..], remaining))
      case DoomedListingChains(copy, remaining) =>
        if !ok then Goto(c, k, Idle)
        else if !Lists(c, Chain, copy.uid, listing) then c
        else Goto(c, k, if listing != [] then DoomedDeletingChains(copy, listing, remaining + |listing|)
                        else if remaining > 0 then Idle
                        else ReleasingFinalizer(copy))
      case DoomedDeletingChains(copy, todo, remaining) =>
        if todo == [] then Goto(c, k, Idle)
        else
          Goto(Remove(c, todo[0]), k,
               if ok && |todo| > 1 then DoomedDeletingChains(copy, todo[1..], remaining) else Idle)
      case ReleasingFinalizer(copy) =>
        Goto(if Current(c, k, copy) then PutSfc(c, k, copy.(finalizer := false)) else c, k, Idle)
  }

  // ---- Everyone else -------------------------------------------------------------------

  /** Users may do anything to an SFC but remove the adapter's finalizer or reuse a UID. */
  function SfcStep(c: Cluster, e: Event): Cluster
    requires e.CreateSfc? || e.EditSfc? || e.TouchSfc? || e.DeleteSfc? || e.RemoveSfc?
  {
    var k := e.key;
    if e.CreateSfc? then
      if k in c.sfcs then c
      else PutSfc(c, k, Sfc(c.nextUid, 0, 1, e.image, e.finalizer, e.otherFinalizers, false, []))
           .(nextUid := c.nextUid + 1, issued := c.issued[c.nextUid := k])
    else if k !in c.sfcs then c
    else
      var s := c.sfcs[k];
      match e
      case EditSfc(_, image) => PutSfc(c, k, s.(image := image, generation := s.generation + 1))
      case TouchSfc(_, other, conditions) => PutSfc(c, k, s.(otherFinalizers := other, conditions := conditions))
      case DeleteSfc(_) => PutSfc(c, k, s.(deleting := true, generation := s.generation + if s.deleting then 0 else 1))
      case RemoveSfc(_) =>
        if s.deleting && !s.finalizer && !s.otherFinalizers then c.(sfcs := c.sfcs - {k}) else c
  }

  /** Users may edit or delete a child; DPF holds it with its own finalizer, lets it go, and
      writes observedGeneration and Ready together for a generation that exists. */
  function ChildStep(c: Cluster, e: Event): Cluster
    requires e.EditChild? || e.DeleteChild? || e.HoldChild? || e.FinalizeChild? || e.ReportChild?
  {
    var ck := e.child;
    if ck !in c.children then c
    else
      var child := c.children[ck];
      match e
      case EditChild(_, spec) => PutChild(c, ck, Respec(child, spec))
      case DeleteChild(_) => Remove(c, ck)
      case HoldChild(_) => PutChild(c, ck, child.(finalizer := true))
      case FinalizeChild(_) =>
        if child.deleting then c.(children := c.children - {ck}) else PutChild(c, ck, child.(finalizer := false))
      case ReportChild(_, generation, ready) =>
        if generation > child.generation then c
        else
          var d := PutChild(c, ck, child.(observed := generation, ready := ready));
          if ready == "True" then d.(declared := d.declared + {(child.uid, generation)}) else d
  }

  ghost function Step(c: Cluster, e: Event): Cluster {
    match e
    case Work(k, fault, listing) => WorkStep(c, k, fault, listing)
    case RestartAdapter => c.(workers := map[])
    case CreateSfc(_, _, _, _) => SfcStep(c, e)
    case EditSfc(_, _) => SfcStep(c, e)
    case TouchSfc(_, _, _) => SfcStep(c, e)
    case DeleteSfc(_) => SfcStep(c, e)
    case RemoveSfc(_) => SfcStep(c, e)
    case EditChild(_, _) => ChildStep(c, e)
    case DeleteChild(_) => ChildStep(c, e)
    case HoldChild(_) => ChildStep(c, e)
    case FinalizeChild(_) => ChildStep(c, e)
    case ReportChild(_, _, _) => ChildStep(c, e)
  }

  ghost function Run(c: Cluster, events: seq<Event>): Cluster {
    if events == [] then c
    else Step(Run(c, events[..|events| - 1]), events[|events| - 1])
  }
}
