/** The translation controller for ServiceFunctionChains over the DPF store: apply, aggregate,
    and the label-driven deletion pass. */
module SfcReconciler {
  import opened Text
  import opened DpfStore
  import opened SfcTranslation

  datatype Request = Request(namespace: string, name: string)

  /** What loading the SFC yields; `Found` is the object the request names. */
  datatype Fetched = NotFound | FetchFailed | Found(sfc: Sfc, deleted: bool)

  /** The number of the store call that errors, counted from 0, and whether it takes effect all the same;
      later numbers than there are calls stand for a pass without errors. */
  datatype Fault = Fault(at: nat, effective: bool)

  /** How many of n writes take effect. */
  function AppliedCount(fault: Fault, n: nat): (count: nat)
    ensures count <= n
  {
    if fault.at >= n then n else fault.at + if fault.effective then 1 else 0
  }

  datatype Result = Done | Requeue | RequeueAfter(seconds: nat)

  type Selector = map<string, string>

  function SelectorOf(req: Request): Selector {
    SfcSelector(req.namespace, req.name)
  }

  /** What the deletion pass looks for. */
  ghost predicate Swept(o: DpfObject, selector: Selector) {
    o.gvk in OWNED_KINDS && o.namespace == MANAGED_NAMESPACE && Selects(selector, o)
  }

  /** The store once the first `count` of the swept kinds have been dealt with. */
  ghost function AfterKinds(objects: Objects, selector: Selector, count: nat): Objects
    requires count <= |OWNED_KINDS|
  {
    map k | k in objects && !(objects[k].gvk in OWNED_KINDS[..count] && Swept(objects[k], selector)) :: objects[k]
  }

  ghost function AfterSweep(objects: Objects, selector: Selector): Objects {
    map k | k in objects && !Swept(objects[k], selector) :: objects[k]
  }

  /** The verdict of aggregation: both kinds are present and everything of both kinds is Ready. */
  ghost predicate ChainProgrammed(objects: Objects, selector: Selector) {
    && (exists k :: IsOwned(objects, DPUServiceChain, selector, k))
    && (exists k :: IsOwned(objects, DPUService, selector, k))
    && (forall k | IsOwned(objects, DPUServiceChain, selector, k) || IsOwned(objects, DPUService, selector, k) ::
        TrueReady(objects[k].conditions))
  }

  ghost predicate IsOwned(objects: Objects, gvk: Gvk, selector: Selector, k: string) {
    k in objects && Matches(objects[k], gvk, MANAGED_NAMESPACE, selector)
  }

  ghost function OwnedKeys(objects: Objects, gvk: Gvk, selector: Selector): set<string> {
    set k | k in objects && IsOwned(objects, gvk, selector, k)
  }

  /** The published condition: the verdict, and while it is false how much has been derived. */
  function Summary(ready: bool, chains: nat, services: nat): Condition {
    if ready then Condition("ChainProgrammed", true, "AllDerivedObjectsReady", "")
    else Condition("ChainProgrammed", false, "AwaitingDPFConvergence",
                   Decimal(chains) + " chain(s), " + Decimal(services) + " service(s) derived; waiting for Ready")
  }

  /** What is published about a store: status true exactly when the chain is programmed, and while it is not,
      how many chains and services the owner has. */
  ghost predicate Publishes(objects: Objects, selector: Selector, c: Condition) {
    && c.kind == "ChainProgrammed" && (c.status <==> ChainProgrammed(objects, selector))
    && c.reason == (if c.status then "AllDerivedObjectsReady" else "AwaitingDPFConvergence")
    && c.message == if c.status then ""
                    else Decimal(|OwnedKeys(objects, DPUServiceChain, selector)|) + " chain(s), "
                         + Decimal(|OwnedKeys(objects, DPUService, selector)|)
                         + " service(s) derived; waiting for Ready"
  }

  ghost function AfterKind(objects: Objects, selector: Selector, gvk: Gvk): Objects {
    map k | k in objects && !IsOwned(objects, gvk, selector, k) :: objects[k]
  }

  lemma NextKind(objects: Objects, selector: Selector, count: nat)
    requires count < |OWNED_KINDS|
    ensures AfterKind(AfterKinds(objects, selector, count), selector, OWNED_KINDS[count])
         == AfterKinds(objects, selector, count + 1)
  {
    assert OWNED_KINDS[..count + 1] == OWNED_KINDS[..count] + [OWNED_KINDS[count]];
  }

  /** How many store calls the rounds over the first `count` kinds make: a list call for each, and a delete
      for every object of the owner. */
  ghost function CallsForKinds(objects: Objects, selector: Selector, count: nat): nat
    requires count <= |OWNED_KINDS|
  {
    if count == 0 then 0
    else CallsForKinds(objects, selector, count - 1) + 1 + |OwnedKeys(objects, OWNED_KINDS[count - 1], selector)|
  }

  ghost function DeletionCalls(objects: Objects, selector: Selector): nat {
    1 + CallsForKinds(objects, selector, |OWNED_KINDS|)
  }

  /** Nothing has changed but that some of the given keys may be gone. */
  ghost predicate PartOf(objects: Objects, after: Objects, keys: set<string>) {
    && (forall k | k in after :: k in objects && after[k] == objects[k])
    && (forall k | k in objects && k !in after :: k in keys)
  }

  /** Nothing has changed but that some objects of the owner may be gone. */
  ghost predicate PartlySwept(objects: Objects, after: Objects, selector: Selector) {
    && (forall k | k in after :: k in objects && after[k] == objects[k])
    && (forall k | k in objects && k !in after :: Swept(objects[k], selector))
  }

  ghost predicate Same(a: seq<string>, b: seq<string>) {
    a == b
  }

  /** The keys are a listing of the owner's objects of a kind. (The fact is kept behind a quantifier so that
      passing it on does not unfold it.) */
  ghost predicate Listing(objects: Objects, gvk: Gvk, selector: Selector, keys: seq<string>) {
    forall l | Same(l, keys) :: IsListing(objects, gvk, MANAGED_NAMESPACE, selector, l)
  }

  lemma ListingMeans(objects: Objects, gvk: Gvk, selector: Selector, keys: seq<string>)
    ensures Listing(objects, gvk, selector, keys) <==> IsListing(objects, gvk, MANAGED_NAMESPACE, selector, keys)
  {
    assert Same(keys, keys);
  }

  /** The sweep was cut within the g-th round: the rounds before it are complete, and of the objects its
      list call returned, in their order by name, exactly those before the call that errored are gone,
      and that one if it took effect. */
  ghost predicate CutAt(objects: Objects, after: Objects, selector: Selector, fault: Fault, g: int, keys: seq<string>) {
    && 0 <= g < |OWNED_KINDS|
    && var before, first := AfterKinds(objects, selector, g), 1 + CallsForKinds(objects, selector, g);
       && Listing(before, OWNED_KINDS[g], selector, keys)
       && first <= fault.at <= first + |keys|
       && after == Without(before, keys[..DeletedCount(fault, first, |keys|)])
  }

  /** How many of n deletes take effect when the list call before them is number `first`. */
  function DeletedCount(fault: Fault, first: nat, n: nat): (count: nat)
    ensures count <= n
  {
    if fault.at <= first then 0 else AppliedCount(fault.(at := fault.at - first - 1), n)
  }

  /** One round: a list call and the deletes before an error. */
  ghost predicate Round(objects: Objects, after: Objects, gvk: Gvk, selector: Selector, fault: Fault, first: nat,
                        keys: seq<string>) {
    && Listing(objects, gvk, selector, keys)
    && after == Without(objects, keys[..DeletedCount(fault, first, |keys|)])
  }

  lemma CutInRound(objects: Objects, after: Objects, selector: Selector, fault: Fault, g: nat, keys: seq<string>)
    requires WellKeyed(objects) && g < |OWNED_KINDS| && 1 + CallsForKinds(objects, selector, g) <= fault.at
    requires var before, first := AfterKinds(objects, selector, g), 1 + CallsForKinds(objects, selector, g);
             && Round(before, after, OWNED_KINDS[g], selector, fault, first, keys)
             && fault.at < first + 1 + |OwnedKeys(before, OWNED_KINDS[g], selector)|
    ensures SweepCut(objects, after, selector, fault) && PartlySwept(objects, after, selector)
    ensures fault.at < DeletionCalls(objects, selector)
  {
    var before, first := AfterKinds(objects, selector, g), 1 + CallsForKinds(objects, selector, g);
    KindsArePart(objects, selector, g);
    RoundIsPart(before, after, OWNED_KINDS[g], selector, fault, first, keys);
    PartOfKind(objects, before, after, selector, OWNED_KINDS[g]);
    CallsGrow(objects, selector, g + 1);
    assert CutAt(objects, after, selector, fault, g, keys);
  }

  lemma RoundIsPart(objects: Objects, after: Objects, gvk: Gvk, selector: Selector, fault: Fault, first: nat,
                    keys: seq<string>)
    requires WellKeyed(objects) && Round(objects, after, gvk, selector, fault, first, keys)
    ensures |keys| == |OwnedKeys(objects, gvk, selector)| && PartOf(objects, after, OwnedKeys(objects, gvk, selector))
  {
    ListingMeans(objects, gvk, selector, keys);
    ListingIsOwned(objects, gvk, selector, keys);
    DeletedPart(objects, gvk, selector, keys, DeletedCount(fault, first, |keys|));
  }

  ghost predicate SweepCut(objects: Objects, after: Objects, selector: Selector, fault: Fault) {
    exists g, keys :: CutAt(objects, after, selector, fault, g, keys)
  }

  /** A deletion pass that is cut short never leaves a chain of the owner without its services: nothing of a kind
      goes before everything of the kinds before it, chains first and services last. */
  lemma ChainsGoFirst(objects: Objects, after: Objects, selector: Selector, fault: Fault, k: string, chain: string)
    requires WellKeyed(objects) && SweepCut(objects, after, selector, fault)
    requires IsOwned(objects, DPUService, selector, k) && IsOwned(after, DPUServiceChain, selector, chain)
    ensures k in after
  {
    var g, keys :| CutAt(objects, after, selector, fault, g, keys);
    var before, first := AfterKinds(objects, selector, g), 1 + CallsForKinds(objects, selector, g);
    RoundIsPart(before, after, OWNED_KINDS[g], selector, fault, first, keys);
    FirstKind(g);
    assert chain in before && g == 0;
    assert k in before;
  }

  lemma FirstKind(g: nat)
    requires g < |OWNED_KINDS|
    ensures g > 0 ==> DPUServiceChain in OWNED_KINDS[..g]
    ensures g == 0 ==> OWNED_KINDS[g] == DPUServiceChain
  {
    if g > 0 {
      assert OWNED_KINDS[..g][0] == DPUServiceChain;
    }
  }

  /** What a deletion pass does and answers. */
  ghost predicate DeletionPass(objects: Objects, after: Objects, selector: Selector, fault: Fault, result: Result) {
    if fault.at == 0 then after == objects && result == Requeue
    else if fault.at < DeletionCalls(objects, selector) then
      SweepCut(objects, after, selector, fault) && result == Requeue
    else
      && after == AfterSweep(objects, selector)
      && result == if OwnedKeys(objects, DPUServiceChain, selector) == {} then Done else RequeueAfter(2)
  }

  lemma KindsArePart(objects: Objects, selector: Selector, count: nat)
    requires count <= |OWNED_KINDS|
    ensures PartlySwept(objects, AfterKinds(objects, selector, count), selector)
    ensures count < |OWNED_KINDS| ==>
              OwnedKeys(AfterKinds(objects, selector, count), OWNED_KINDS[count], selector)
              == OwnedKeys(objects, OWNED_KINDS[count], selector)
  {
    if count < |OWNED_KINDS| {
      LaterKind(count);
    }
  }

  lemma AllKinds(objects: Objects, selector: Selector)
    ensures AfterKinds(objects, selector, |OWNED_KINDS|) == AfterSweep(objects, selector)
    ensures PartlySwept(objects, AfterSweep(objects, selector), selector)
  {
    assert OWNED_KINDS[..|OWNED_KINDS|] == OWNED_KINDS;
  }

  lemma NextRound(objects: Objects, selector: Selector, count: nat)
    requires count < |OWNED_KINDS|
    ensures AfterKind(AfterKinds(objects, selector, count), selector, OWNED_KINDS[count])
         == AfterKinds(objects, selector, count + 1)
    ensures CallsForKinds(objects, selector, count + 1)
         == CallsForKinds(objects, selector, count) + 1
            + |OwnedKeys(AfterKinds(objects, selector, count), OWNED_KINDS[count], selector)|
  {
    NextKind(objects, selector, count);
    KindsArePart(objects, selector, count);
  }

  lemma LaterKind(count: nat)
    requires count < |OWNED_KINDS|
    ensures OWNED_KINDS[count] !in OWNED_KINDS[..count]
  {
  }

  lemma PartOfKind(objects: Objects, before: Objects, after: Objects, selector: Selector, gvk: Gvk)
    requires PartlySwept(objects, before, selector) && PartOf(before, after, OwnedKeys(before, gvk, selector))
    requires gvk in OWNED_KINDS
    ensures PartlySwept(objects, after, selector)
  {
  }

  lemma KeysOfHeld(objects: Objects, keys: seq<string>, out: seq<DpfObject>)
    requires WellKeyed(objects) && HoldsAt(objects, keys, out)
    ensures forall i | 0 <= i < |out| :: Key(out[i]) == keys[i]
  {
  }

  lemma DeletedPart(objects: Objects, gvk: Gvk, selector: Selector, keys: seq<string>, count: nat)
    requires WellKeyed(objects) && count <= |keys| && forall k :: k in keys <==> IsOwned(objects, gvk, selector, k)
    ensures var after := Without(objects, keys[..count]);
            && WellKeyed(after) && PartOf(objects, after, OwnedKeys(objects, gvk, selector))
            && (count == |keys| ==> after == AfterKind(objects, selector, gvk))
  {
    KeysAreOwned(objects, gvk, selector, keys);
    WithoutSome(objects, keys, count, OwnedKeys(objects, gvk, selector));
    AllDeleted(objects, gvk, selector, keys);
    assert keys[..|keys|] == keys;
  }

  lemma KeysAreOwned(objects: Objects, gvk: Gvk, selector: Selector, keys: seq<string>)
    requires forall k :: k in keys <==> IsOwned(objects, gvk, selector, k)
    ensures forall k | k in keys :: k in OwnedKeys(objects, gvk, selector)
  {
  }

  lemma AllDeleted(objects: Objects, gvk: Gvk, selector: Selector, keys: seq<string>)
    requires forall k :: k in keys <==> IsOwned(objects, gvk, selector, k)
    ensures Without(objects, keys) == AfterKind(objects, selector, gvk)
  {
  }

  lemma WithoutSome(objects: Objects, keys: seq<string>, count: nat, owned: set<string>)
    requires WellKeyed(objects) && count <= |keys| && forall k | k in keys :: k in owned
    ensures WellKeyed(Without(objects, keys[..count])) && PartOf(objects, Without(objects, keys[..count]), owned)
  {
    assert forall k | k in keys[..count] :: k in keys;
  }

  lemma {:induction false} CallsGrow(objects: Objects, selector: Selector, count: nat)
    requires count <= |OWNED_KINDS|
    ensures CallsForKinds(objects, selector, count) <= CallsForKinds(objects, selector, |OWNED_KINDS|)
    decreases |OWNED_KINDS| - count
  {
    if count < |OWNED_KINDS| {
      CallsGrow(objects, selector, count + 1);
    }
  }

  lemma ListingIsOwned(objects: Objects, gvk: Gvk, selector: Selector, keys: seq<string>)
    requires IsListing(objects, gvk, MANAGED_NAMESPACE, selector, keys)
    ensures forall k :: k in keys <==> IsOwned(objects, gvk, selector, k)
    ensures keys == [] <==> forall k :: !IsOwned(objects, gvk, selector, k)
    ensures |keys| == |OwnedKeys(objects, gvk, selector)|
  {
    if keys != [] {
      assert keys[0] in keys;
    }
    DistinctCount(keys);
    assert (set k | k in keys) == OwnedKeys(objects, gvk, selector);
  }

  lemma {:induction false} DistinctCount(keys: seq<string>)
    requires Distinct(keys)
    ensures |set k | k in keys| == |keys|
  {
    if keys != [] {
      var front, last := keys[..|keys| - 1], keys[|keys| - 1];
      DistinctCount(front);
      assert keys == front + [last] && last !in front;
      assert (set k | k in keys) == (set k | k in front) + {last};
    }
  }

  class Reconciler {
    const client: InMemoryClient
    const scheme: Scheme

    constructor (client: InMemoryClient, scheme: Scheme)
      ensures this.client == client && this.scheme == scheme
    {
      this.client := client;
      this.scheme := scheme;
    }

    /** One pass. Its first store call that errors ends it with a requeue. The published condition is what
        the pass hands to the status writer. */
    method Reconcile(req: Request, fetched: Fetched, fault: Fault, statusAccepted: bool)
        returns (result: Result, published: Option<Condition>)
      requires WellKeyed(client.objects)
      requires fetched.Found? ==> fetched.sfc.namespace == req.namespace && fetched.sfc.name == req.name
      modifies client
      ensures WellKeyed(client.objects)
      ensures !fetched.Found? ==>
                client.objects == old(client.objects) && published == None
                && result == if fetched.NotFound? then Done else Requeue
      ensures fetched.Found? && fetched.deleted ==>
                && published == None && PartlySwept(old(client.objects), client.objects, SelectorOf(req))
                && DeletionPass(old(client.objects), client.objects, SelectorOf(req), fault, result)
      ensures fetched.Found? && !fetched.deleted ==>
                var plan := Plan(scheme, fetched.sfc);
                && client.objects == AppliedAll(old(client.objects), plan[..AppliedCount(fault, |plan|)])
                && if fault.at < |plan| + 2 then result == Requeue && published == None
                   else
                     && published.Some? && Publishes(client.objects, SelectorOf(req), published.value)
                     && result == if !statusAccepted then Requeue
                                  else if ChainProgrammed(client.objects, SelectorOf(req)) then Done
                                  else RequeueAfter(5)
    {
      published := None;
      if !fetched.Found? {
        result := if fetched.NotFound? then Done else Requeue;
        return;
      }
      var selector := SelectorOf(req);
      if fetched.deleted {
        result := Finalize(selector, fault);
        return;
      }
      var plan := TranslateSfc(scheme, fetched.sfc);
      ApplyEach(plan, fault);
      if fault.at < |plan| + 2 {
        return Requeue, None;
      }
      assert plan[..|plan|] == plan;
      var condition, allReady := Aggregate(selector);
      published := Some(condition);
      if !statusAccepted {
        result := Requeue;
      } else {
        result := if allReady then Done else RequeueAfter(5);
      }
    }

    /** The apply loop up to the first error. */
    method ApplyEach(plan: seq<DpfObject>, fault: Fault)
      requires WellKeyed(client.objects)
      modifies client
      ensures WellKeyed(client.objects)
      ensures client.objects == AppliedAll(old(client.objects), plan[..AppliedCount(fault, |plan|)])
    {
      ghost var start := client.objects;
      AppliedAllKeepsKeys(start, plan[..AppliedCount(fault, |plan|)]);
      for i := 0 to |plan|
        invariant i <= fault.at && client.objects == AppliedAll(start, plan[..i])
      {
        AppliedPrefix(start, plan, i);
        if i == fault.at {
          if fault.effective {
            client.Apply(plan[i]);
          }
          return;
        }
        client.Apply(plan[i]);
      }
    }

    /** The deletion pass: the chains first, then the sweep. */
    method Finalize(selector: Selector, fault: Fault) returns (result: Result)
      requires WellKeyed(client.objects)
      modifies client
      ensures WellKeyed(client.objects) && PartlySwept(old(client.objects), client.objects, selector)
      ensures DeletionPass(old(client.objects), client.objects, selector, fault, result)
    {
      if fault.at == 0 {
        return Requeue;
      }
      var chains, _ := ListOwned(DPUServiceChain, selector);
      var failed := Sweep(selector, fault);
      if failed {
        return Requeue;
      }
      result := if |chains| > 0 then RequeueAfter(2) else Done;
    }

    /** A listing in the managed namespace, as far as its order does not matter. */
    method ListOwned(gvk: Gvk, selector: Selector) returns (out: seq<DpfObject>, ghost keys: seq<string>)
      ensures forall k :: k in keys <==> IsOwned(client.objects, gvk, selector, k)
      ensures out == [] <==> forall k :: !IsOwned(client.objects, gvk, selector, k)
      ensures |out| == |OwnedKeys(client.objects, gvk, selector)|
      ensures HoldsAt(client.objects, keys, out) && Listing(client.objects, gvk, selector, keys)
    {
      out := client.List(gvk, MANAGED_NAMESPACE, selector);
      keys :| IsListing(client.objects, gvk, MANAGED_NAMESPACE, selector, keys) && HoldsAt(client.objects, keys, out);
      ListingIsOwned(client.objects, gvk, selector, keys);
      ListingMeans(client.objects, gvk, selector, keys);
    }

    /** The four rounds after the first list call. */
    method Sweep(selector: Selector, fault: Fault) returns (failed: bool)
      requires WellKeyed(client.objects) && fault.at >= 1
      modifies client
      ensures WellKeyed(client.objects) && PartlySwept(old(client.objects), client.objects, selector)
      ensures failed <==> fault.at < DeletionCalls(old(client.objects), selector)
      ensures failed ==> SweepCut(old(client.objects), client.objects, selector, fault)
      ensures !failed ==> client.objects == AfterSweep(old(client.objects), selector)
    {
      ghost var start := client.objects;
      var calls := 1;
      for g := 0 to |OWNED_KINDS|
        invariant WellKeyed(client.objects)
        invariant client.objects == AfterKinds(start, selector, g)
        invariant calls == 1 + CallsForKinds(start, selector, g) <= fault.at
      {
        NextRound(start, selector, g);
        ghost var keys;
        failed, calls, keys := SweepKind(OWNED_KINDS[g], selector, fault, calls);
        if failed {
          CutInRound(start, client.objects, selector, fault, g, keys);
          return true;
        }
      }
      AllKinds(start, selector);
      failed := false;
    }

    /** One list call and its deletes, the first of which is call number `first`. */
    method SweepKind(gvk: Gvk, selector: Selector, fault: Fault, first: nat)
        returns (failed: bool, next: nat, ghost keys: seq<string>)
      requires WellKeyed(client.objects) && first <= fault.at
      modifies client
      ensures WellKeyed(client.objects)
      ensures next == first + 1 + |OwnedKeys(old(client.objects), gvk, selector)|
      ensures failed <==> fault.at < next
      ensures Round(old(client.objects), client.objects, gvk, selector, fault, first, keys)
      ensures !failed ==> client.objects == AfterKind(old(client.objects), selector, gvk)
    {
      var objs;
      objs, keys := ListOwned(gvk, selector);
      next := first + 1 + |objs|;
      if first == fault.at {
        return true, next, keys;
      }
      KeysOfHeld(client.objects, keys, objs);
      ghost var start := client.objects;
      DeleteEach(objs, keys, fault.(at := fault.at - first - 1));
      DeletedPart(start, gvk, selector, keys, DeletedCount(fault, first, |keys|));
      failed := fault.at < next;
    }

    /** The deletes up to the first error. */
    method DeleteEach(objs: seq<DpfObject>, ghost keys: seq<string>, fault: Fault)
      requires |objs| == |keys| && forall i | 0 <= i < |keys| :: Key(objs[i]) == keys[i]
      modifies client
      ensures client.objects == Without(old(client.objects), keys[..AppliedCount(fault, |keys|)])
    {
      ghost var start := client.objects;
      for j := 0 to |objs|
        invariant j <= fault.at
        invariant client.objects == Without(start, keys[..j])
      {
        WithoutSnoc(start, keys, j);
        if j == fault.at {
          if fault.effective {
            client.Delete(objs[j].gvk, objs[j].namespace, objs[j].name);
          }
          return;
        }
        client.Delete(objs[j].gvk, objs[j].namespace, objs[j].name);
      }
    }

    /** The scan over everything derived, from what its presence says. */
    method AllReady(all: seq<DpfObject>, present: bool) returns (allReady: bool)
      ensures allReady <==> present && forall i | 0 <= i < |all| :: IsReady(all[i])
    {
      allReady := present;
      for i := 0 to |all|
        invariant allReady == present
        invariant forall j | 0 <= j < i :: IsReady(all[j])
      {
        if !IsReady(all[i]) {
          return false;
        }
      }
    }

    method Aggregate(selector: Selector) returns (condition: Condition, allReady: bool)
      ensures allReady == ChainProgrammed(client.objects, selector)
      ensures Publishes(client.objects, selector, condition)
    {
      var chains, chainKeys := ListOwned(DPUServiceChain, selector);
      var services, serviceKeys := ListOwned(DPUService, selector);
      allReady := AllReady(chains + services, |chains| > 0 && |services| > 0);
      ReadyMeans(client.objects, selector, chains, chainKeys, services, serviceKeys);
      condition := Summary(allReady, |chains|, |services|);
    }
  }

  lemma ReadyMeans(objects: Objects, selector: Selector, chains: seq<DpfObject>, chainKeys: seq<string>,
                   services: seq<DpfObject>, serviceKeys: seq<string>)
    requires HoldsAt(objects, chainKeys, chains) && HoldsAt(objects, serviceKeys, services)
    requires forall k :: k in chainKeys <==> IsOwned(objects, DPUServiceChain, selector, k)
    requires forall k :: k in serviceKeys <==> IsOwned(objects, DPUService, selector, k)
    ensures var all := chains + services;
            ChainProgrammed(objects, selector)
            <==> |chains| > 0 && |services| > 0 && forall i | 0 <= i < |all| :: IsReady(all[i])
  {
    ReadyOfKind(objects, DPUServiceChain, selector, chains, chainKeys);
    ReadyOfKind(objects, DPUService, selector, services, serviceKeys);
    var all := chains + services;
    assert forall i | 0 <= i < |chains| :: all[i] == chains[i];
    assert forall i | 0 <= i < |services| :: all[|chains| + i] == services[i];
  }

  lemma ReadyOfKind(objects: Objects, gvk: Gvk, selector: Selector, out: seq<DpfObject>, keys: seq<string>)
    requires HoldsAt(objects, keys, out) && forall k :: k in keys <==> IsOwned(objects, gvk, selector, k)
    ensures |out| > 0 <==> exists k :: IsOwned(objects, gvk, selector, k)
    ensures (forall i | 0 <= i < |out| :: IsReady(out[i])) <==>
            forall k | IsOwned(objects, gvk, selector, k) :: TrueReady(objects[k].conditions)
  {
    forall i | 0 <= i < |out|
      ensures IsReady(out[i]) == TrueReady(objects[keys[i]].conditions)
    {
      ReadyMeansTrue(out[i]);
    }
    forall i | 0 <= i < |keys|
      ensures IsOwned(objects, gvk, selector, keys[i])
    {
      assert keys[i] in keys;
    }
    if |keys| > 0 {
      assert IsOwned(objects, gvk, selector, keys[0]);
    }
    forall k | IsOwned(objects, gvk, selector, k)
      ensures exists i :: 0 <= i < |out| && out[i] == objects[k]
    {
      var i :| 0 <= i < |keys| && keys[i] == k;
      assert out[i] == objects[k];
    }
  }
}
