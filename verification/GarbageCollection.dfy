/** What the translation controller guarantees over any history of the store: deletion leaves
    nothing of an owner behind, and a live owner has exactly one service and one chain. */
module GarbageCollection {
  import opened Text
  import opened UnstructuredValues
  import opened DpfStore
  import opened SfcTranslation
  import opened SfcReconciler

  /** What can happen to the store. A reconcile may stop after any number of applied objects; other
      writers may apply whatever is not labelled as the owner's. */
  datatype Event =
    | Reconciled(sfc: Sfc, upTo: nat)
    | Swept(selector: Selector)
    | OtherApply(o: DpfObject)
    | Deleted(key: string)
    | Reported(key: string, conditions: Option<seq<Condition>>)

  function Take(plan: seq<DpfObject>, upTo: nat): seq<DpfObject> {
    if upTo < |plan| then plan[..upTo] else plan
  }

  ghost function After(n: Scheme, objects: Objects, e: Event): Objects {
    match e
    case Reconciled(sfc, upTo) => AppliedAll(objects, Take(Plan(n, sfc), upTo))
    case Swept(selector) => AfterSweep(objects, selector)
    case OtherApply(o) => Applied(objects, o)
    case Deleted(key) => objects - {key}
    case Reported(key, conditions) => WithConditions(objects, key, conditions)
  }

  ghost function Run(n: Scheme, objects: Objects, history: seq<Event>): Objects {
    if history == [] then objects
    else After(n, Run(n, objects, history[..|history| - 1]), history[|history| - 1])
  }

  ghost predicate OthersKeepOff(history: seq<Event>, selector: Selector) {
    forall e | e in history && e.OtherApply? :: !Selects(selector, e.o)
  }

  ghost predicate NothingOwned(objects: Objects, selector: Selector) {
    forall k | k in objects :: !Selects(selector, objects[k])
  }

  // ---- Who selects what ----------------------------------------------------------------

  /** The selector of an SFC selects what its own plans produce and nothing another SFC's do. */
  lemma SelectorIsExact(o: DpfObject, namespace: string, name: string, selector: Selector, req: Request)
    requires o.labels == SfcSelector(namespace, name) && selector == SelectorOf(req)
    ensures Selects(selector, o) <==> namespace == req.namespace && name == req.name
  {
    if Selects(selector, o) {
      assert OWNER_NAME in selector && OWNER_NAMESPACE in selector;
      assert LabelOf(o, OWNER_NAME) == selector[OWNER_NAME];
      assert LabelOf(o, OWNER_NAMESPACE) == selector[OWNER_NAMESPACE];
    }
  }

  // ---- Garbage collection --------------------------------------------------------------

  ghost predicate Sweepable(objects: Objects, selector: Selector) {
    && WellKeyed(objects)
    && forall k | k in objects && Selects(selector, objects[k]) ::
         objects[k].gvk in OWNED_KINDS && objects[k].namespace == MANAGED_NAMESPACE
  }

  lemma PlanKeepsSweepable(n: Scheme, objects: Objects, sfc: Sfc, upTo: nat, selector: Selector)
    requires Sweepable(objects, selector)
    ensures Sweepable(AppliedAll(objects, Take(Plan(n, sfc), upTo)), selector)
  {
    var plan := Take(Plan(n, sfc), upTo);
    var after := AppliedAll(objects, plan);
    assert forall o | o in plan :: o in Plan(n, sfc);
    forall o | o in plan
      ensures o.conditions == None && o.gvk in OWNED_KINDS && o.namespace == MANAGED_NAMESPACE
    {
      PlanMember(n, sfc, o);
    }
    AppliedAllKeepsKeys(objects, plan);
    forall k | k in after && Selects(selector, after[k])
      ensures after[k].gvk in OWNED_KINDS && after[k].namespace == MANAGED_NAMESPACE
    {
      AppliedAllAt(objects, plan, k);
      if Planned(plan, k) {
        LastPlannedIsPlanned(plan, k, after[k].(conditions := None));
      }
    }
  }

  lemma LastPlannedIsPlanned(plan: seq<DpfObject>, k: string, o: DpfObject)
    requires IsLastPlanned(plan, k, o)
    ensures o in plan && Key(o) == k
  {
  }

  lemma StepKeepsSweepable(n: Scheme, objects: Objects, e: Event, selector: Selector)
    requires Sweepable(objects, selector)
    requires e.OtherApply? ==> !Selects(selector, e.o)
    ensures Sweepable(After(n, objects, e), selector)
  {
    match e
    case Reconciled(sfc, upTo) => PlanKeepsSweepable(n, objects, sfc, upTo, selector);
    case Swept(_) =>
    case OtherApply(o) => OtherApplyIsUnowned(objects, o, selector);
    case Deleted(_) =>
    case Reported(key, conditions) => ReportKeepsOwner(objects, key, conditions, selector);
  }

  /** An apply of an unselected object owns nothing new. */
  lemma OtherApplyIsUnowned(objects: Objects, o: DpfObject, selector: Selector)
    requires WellKeyed(objects) && !Selects(selector, o)
    ensures var after := Applied(objects, o);
            && WellKeyed(after)
            && forall k | k in after && Selects(selector, after[k]) :: k in objects && after[k] == objects[k]
  {
    SameLabels(Applied(objects, o)[Key(o)], o, selector);
  }

  lemma ReportKeepsOwner(objects: Objects, key: string, conditions: Option<seq<Condition>>, selector: Selector)
    requires WellKeyed(objects)
    ensures var after := WithConditions(objects, key, conditions);
            && WellKeyed(after) && after.Keys == objects.Keys
            && forall k | k in after :: after[k].gvk == objects[k].gvk && after[k].namespace == objects[k].namespace
                                        && Selects(selector, after[k]) == Selects(selector, objects[k])
  {
    if key in objects {
      SameLabels(objects[key].(conditions := conditions), objects[key], selector);
    }
  }

  lemma SameLabels(a: DpfObject, b: DpfObject, selector: Selector)
    requires a.labels == b.labels
    ensures Selects(selector, a) == Selects(selector, b)
  {
    assert forall l :: LabelOf(a, l) == LabelOf(b, l);
  }

  lemma {:induction false} HistoryKeepsSweepable(n: Scheme, start: Objects, history: seq<Event>, selector: Selector)
    requires Sweepable(start, selector) && OthersKeepOff(history, selector)
    ensures Sweepable(Run(n, start, history), selector)
  {
    if history != [] {
      var front, e := history[..|history| - 1], history[|history| - 1];
      assert e in history && forall x | x in front :: x in history;
      HistoryKeepsSweepable(n, start, front, selector);
      StepKeepsSweepable(n, Run(n, start, front), e, selector);
    }
  }

  /** Garbage collection is complete over any history: from a store with nothing of the owner,
      after any traffic whatsoever of its own, of other owners and of DPF, one deletion pass leaves
      nothing labelled as the owner's and touches nothing else. */
  lemma DeletionIsComplete(n: Scheme, start: Objects, history: seq<Event>, req: Request)
    requires WellKeyed(start) && NothingOwned(start, SelectorOf(req))
    requires OthersKeepOff(history, SelectorOf(req))
    ensures var before := Run(n, start, history);
            var after := AfterSweep(before, SelectorOf(req));
            && WellKeyed(before)
            && NothingOwned(after, SelectorOf(req))
            && (forall k | k in before && !Selects(SelectorOf(req), before[k]) :: k in after && after[k] == before[k])
            && (forall k | k in after :: k in before)
  {
    HistoryKeepsSweepable(n, start, history, SelectorOf(req));
  }

  /** A deletion pass that answers Done has left nothing of the owner, over any history: Done means no
      call errored and no chain was there before, and what else was there is gone too. */
  lemma DoneMeansGone(n: Scheme, start: Objects, history: seq<Event>, req: Request, fault: Fault, after: Objects,
                      result: Result)
    requires WellKeyed(start) && NothingOwned(start, SelectorOf(req))
    requires OthersKeepOff(history, SelectorOf(req))
    requires DeletionPass(Run(n, start, history), after, SelectorOf(req), fault, result)
    ensures var before := Run(n, start, history);
            && (result == Done <==> fault.at >= DeletionCalls(before, SelectorOf(req))
                                    && OwnedKeys(before, DPUServiceChain, SelectorOf(req)) == {})
            && (result == Done ==> NothingOwned(after, SelectorOf(req)))
            && (forall k | k in before && !Selects(SelectorOf(req), before[k]) :: k in after && after[k] == before[k])
  {
    DeletionIsComplete(n, start, history, req);
    var before := Run(n, start, history);
    if 0 < fault.at < DeletionCalls(before, SelectorOf(req)) {
      CutSparesOthers(before, after, SelectorOf(req), fault);
    }
  }

  lemma CutSparesOthers(objects: Objects, after: Objects, selector: Selector, fault: Fault)
    requires WellKeyed(objects) && SweepCut(objects, after, selector, fault)
    ensures forall k | k in objects && !Selects(selector, objects[k]) :: k in after && after[k] == objects[k]
  {
    var g, keys :| CutAt(objects, after, selector, fault, g, keys);
    var before, first := AfterKinds(objects, selector, g), 1 + CallsForKinds(objects, selector, g);
    KindsArePart(objects, selector, g);
    RoundIsPart(before, after, OWNED_KINDS[g], selector, fault, first, keys);
    PartOfKind(objects, before, after, selector, OWNED_KINDS[g]);
  }

  // ---- Exactly one service and one chain -----------------------------------------------

  ghost function ServiceKey(n: Scheme, req: Request): string {
    KeyOf(DPUService, MANAGED_NAMESPACE, n.name(req.namespace, req.name, "service"))
  }

  ghost function ChainKey(n: Scheme, req: Request): string {
    KeyOf(DPUServiceChain, MANAGED_NAMESPACE, n.name(req.namespace, req.name, "chain"))
  }

  ghost predicate Single(n: Scheme, objects: Objects, req: Request, selector: Selector) {
    && WellKeyed(objects)
    && forall k | k in objects && Selects(selector, objects[k]) ::
         && (objects[k].gvk == DPUService ==> k == ServiceKey(n, req))
         && (objects[k].gvk == DPUServiceChain ==> k == ChainKey(n, req))
  }

  ghost predicate Present(n: Scheme, objects: Objects, req: Request) {
    && ServiceKey(n, req) in objects && objects[ServiceKey(n, req)].gvk == DPUService
    && objects[ServiceKey(n, req)].labels == SfcSelector(req.namespace, req.name)
    && objects[ServiceKey(n, req)].namespace == MANAGED_NAMESPACE
    && ChainKey(n, req) in objects && objects[ChainKey(n, req)].gvk == DPUServiceChain
    && objects[ChainKey(n, req)].labels == SfcSelector(req.namespace, req.name)
    && objects[ChainKey(n, req)].namespace == MANAGED_NAMESPACE
  }

  /** An event that leaves the owner's service and chain to the owner: nobody else's object has
      either key, nobody deletes them, and the owner is not swept. */
  ghost predicate Spares(n: Scheme, e: Event, req: Request) {
    match e
    case Reconciled(sfc, _) =>
      (sfc.namespace == req.namespace && sfc.name == req.name)
      || forall o | o in Plan(n, sfc) :: Key(o) != ServiceKey(n, req) && Key(o) != ChainKey(n, req)
    case Swept(selector) => exists other: Request :: other != req && selector == SelectorOf(other)
    case OtherApply(o) => Key(o) != ServiceKey(n, req) && Key(o) != ChainKey(n, req)
    case Deleted(key) => key != ServiceKey(n, req) && key != ChainKey(n, req)
    case Reported(_, _) => true
  }

  ghost predicate SparesAll(n: Scheme, history: seq<Event>, req: Request) {
    forall e | e in history :: Spares(n, e, req)
  }

  lemma PlanKeepsSingle(n: Scheme, objects: Objects, sfc: Sfc, upTo: nat, req: Request, selector: Selector)
    requires Single(n, objects, req, selector) && selector == SelectorOf(req)
    ensures Single(n, AppliedAll(objects, Take(Plan(n, sfc), upTo)), req, selector)
  {
    var plan := Take(Plan(n, sfc), upTo);
    var after := AppliedAll(objects, plan);
    assert forall o | o in plan :: o in Plan(n, sfc);
    forall o | o in plan
      ensures o.conditions == None
    {
      PlanMember(n, sfc, o);
    }
    AppliedAllKeepsKeys(objects, plan);
    forall k | k in after && Selects(selector, after[k])
      ensures after[k].gvk == DPUService ==> k == ServiceKey(n, req)
      ensures after[k].gvk == DPUServiceChain ==> k == ChainKey(n, req)
    {
      AppliedAllAt(objects, plan, k);
      if Planned(plan, k) {
        var o := after[k].(conditions := None);
        LastPlannedIsPlanned(plan, k, o);
        SameLabels(o, after[k], selector);
        PlannedKey(n, sfc, o, req, selector);
      }
    }
  }

  lemma PlannedKey(n: Scheme, sfc: Sfc, o: DpfObject, req: Request, selector: Selector)
    requires o in Plan(n, sfc) && Selects(selector, o) && selector == SelectorOf(req)
    ensures o.gvk == DPUService ==> Key(o) == ServiceKey(n, req)
    ensures o.gvk == DPUServiceChain ==> Key(o) == ChainKey(n, req)
  {
    PlanMember(n, sfc, o);
    SelectorIsExact(o, sfc.namespace, sfc.name, selector, req);
  }

  lemma StepKeepsSingle(n: Scheme, objects: Objects, e: Event, req: Request, selector: Selector)
    requires Single(n, objects, req, selector) && selector == SelectorOf(req)
    requires e.OtherApply? ==> !Selects(selector, e.o)
    ensures Single(n, After(n, objects, e), req, selector)
  {
    match e
    case Reconciled(sfc, upTo) => PlanKeepsSingle(n, objects, sfc, upTo, req, selector);
    case Swept(_) =>
    case OtherApply(o) => OtherApplyIsUnowned(objects, o, selector);
    case Deleted(_) =>
    case Reported(key, conditions) => ReportKeepsOwner(objects, key, conditions, selector);
  }

  lemma {:induction false} HistoryKeepsSingle(n: Scheme, start: Objects, history: seq<Event>, req: Request,
                                              selector: Selector)
    requires Single(n, start, req, selector) && selector == SelectorOf(req) && OthersKeepOff(history, selector)
    ensures Single(n, Run(n, start, history), req, selector)
  {
    if history != [] {
      var front, e := history[..|history| - 1], history[|history| - 1];
      assert e in history && forall x | x in front :: x in history;
      HistoryKeepsSingle(n, start, front, req, selector);
      StepKeepsSingle(n, Run(n, start, front), e, req, selector);
    }
  }

  /** Within an owner's plan the two keys belong to its service and its chain alone. */
  lemma OwnPlanKeys(n: Scheme, sfc: Sfc, req: Request, o: DpfObject)
    requires sfc.namespace == req.namespace && sfc.name == req.name && o in Plan(n, sfc)
    ensures o.conditions == None
    ensures Key(o) == ServiceKey(n, req) ==> o == ServiceObject(n, sfc)
    ensures Key(o) == ChainKey(n, req) ==> o == ChainObject(n, sfc)
  {
    var svc, chain := ServiceObject(n, sfc), ChainObject(n, sfc);
    PlanMember(n, sfc, o);
    if Key(o) == Key(svc) {
      KeyFixesKind(o, svc);
    }
    if Key(o) == Key(chain) {
      KeyFixesKind(o, chain);
    }
  }

  /** What a spec-only plan does at a key that only one of its objects can have. */
  lemma LoneKey(objects: Objects, plan: seq<DpfObject>, o: DpfObject, k: string)
    requires SpecOnly(plan) && k == Key(o) && o.conditions == None && forall x | x in plan && Key(x) == k :: x == o
    ensures var after := AppliedAll(objects, plan);
            && (o in plan ==> k in after && after[k].(conditions := None) == o)
            && (o !in plan ==> (k in after <==> k in objects) && (k in objects ==> after[k] == objects[k]))
  {
    AppliedAllAt(objects, plan, k);
    if Planned(plan, k) {
      LastPlannedIsPlanned(plan, k, AppliedAll(objects, plan)[k].(conditions := None));
    }
  }

  lemma PlanKeepsConditions(objects: Objects, plan: seq<DpfObject>)
    requires SpecOnly(plan)
    ensures forall k | k in objects ::
              k in AppliedAll(objects, plan) && AppliedAll(objects, plan)[k].conditions == objects[k].conditions
  {
    forall k | k in objects
      ensures k in AppliedAll(objects, plan) && AppliedAll(objects, plan)[k].conditions == objects[k].conditions
    {
      AppliedAllAt(objects, plan, k);
    }
  }

  /** The owner's own plan puts its service and its chain in place, whatever else it contains. */
  lemma OwnPlanAt(n: Scheme, objects: Objects, sfc: Sfc, upTo: nat, req: Request)
    requires sfc.namespace == req.namespace && sfc.name == req.name
    ensures var plan := Take(Plan(n, sfc), upTo);
            var after := AppliedAll(objects, plan);
            && (Present(n, objects, req) || upTo >= |Plan(n, sfc)| ==> Present(n, after, req))
            && (forall k | k in objects :: k in after && after[k].conditions == objects[k].conditions)
  {
    var plan := Take(Plan(n, sfc), upTo);
    var svc, chain := ServiceObject(n, sfc), ChainObject(n, sfc);
    InPlan(n, sfc);
    assert forall o | o in plan :: o in Plan(n, sfc);
    forall o | o in plan
      ensures o.conditions == None
      ensures Key(o) == ServiceKey(n, req) ==> o == svc
      ensures Key(o) == ChainKey(n, req) ==> o == chain
    {
      OwnPlanKeys(n, sfc, req, o);
    }
    PlanKeepsConditions(objects, plan);
    LoneKey(objects, plan, svc, ServiceKey(n, req));
    LoneKey(objects, plan, chain, ChainKey(n, req));
  }

  /** Right after a whole live pass the owner's service runs the images of the functions the SFC names now, in
      order, and its chain hops through them on the SFC's nodes, whatever was stored before. */
  lemma LivePassCarriesTheSpec(n: Scheme, objects: Objects, sfc: Sfc, req: Request)
    requires sfc.namespace == req.namespace && sfc.name == req.name
    ensures var after := AppliedAll(objects, Plan(n, sfc));
            && Present(n, after, req)
            && var svc, chain := after[ServiceKey(n, req)], after[ChainKey(n, req)];
               && RunsFunctions(n, sfc, svc) && SelectsNodes(chain, sfc.nodeSelector)
               && forall i | 0 <= i < |sfc.functions| :: HopService(chain, i) == n.clean(sfc.functions[i].name)
  {
    var plan := Plan(n, sfc);
    assert Take(plan, |plan|) == plan;
    OwnPlanAt(n, objects, sfc, |plan|, req);
    InPlan(n, sfc);
    forall o | o in plan
      ensures o.conditions == None
      ensures Key(o) == ServiceKey(n, req) ==> o == ServiceObject(n, sfc)
      ensures Key(o) == ChainKey(n, req) ==> o == ChainObject(n, sfc)
    {
      OwnPlanKeys(n, sfc, req, o);
    }
    LoneKey(objects, plan, ServiceObject(n, sfc), ServiceKey(n, req));
    LoneKey(objects, plan, ChainObject(n, sfc), ChainKey(n, req));
    var after := AppliedAll(objects, plan);
    SpecTells(n, sfc, after[ServiceKey(n, req)], after[ChainKey(n, req)]);
  }

  lemma SpecTells(n: Scheme, sfc: Sfc, svc: DpfObject, chain: DpfObject)
    requires svc.(conditions := None) == ServiceObject(n, sfc) && chain.(conditions := None) == ChainObject(n, sfc)
    ensures RunsFunctions(n, sfc, svc) && SelectsNodes(chain, sfc.nodeSelector)
    ensures forall i | 0 <= i < |sfc.functions| :: HopService(chain, i) == n.clean(sfc.functions[i].name)
  {
    SameSpec(svc, ServiceObject(n, sfc));
    SameSpec(chain, ChainObject(n, sfc));
    ServiceRuns(n, sfc);
    ChainSelects(n, sfc);
    forall i | 0 <= i < |sfc.functions|
      ensures HopService(chain, i) == n.clean(sfc.functions[i].name)
    {
      HopIs(n, sfc, i);
      SameHops(chain, ChainObject(n, sfc), i);
    }
  }

  lemma SameSpec(a: DpfObject, b: DpfObject)
    requires a.(conditions := None) == b
    ensures a.spec == b.spec && a.gvk == b.gvk && FunctionValues(a) == FunctionValues(b)
  {
  }

  lemma SameHops(a: DpfObject, b: DpfObject, i: nat)
    requires a.spec == b.spec
    ensures HopService(a, i) == HopService(b, i)
  {
  }

  lemma InPlan(n: Scheme, sfc: Sfc)
    ensures ServiceObject(n, sfc) in Plan(n, sfc) && ChainObject(n, sfc) in Plan(n, sfc)
  {
  }

  lemma OtherPlanKeepsPresent(n: Scheme, objects: Objects, sfc: Sfc, upTo: nat, req: Request)
    requires Present(n, objects, req)
    requires forall o | o in Plan(n, sfc) :: Key(o) != ServiceKey(n, req) && Key(o) != ChainKey(n, req)
    ensures Present(n, AppliedAll(objects, Take(Plan(n, sfc), upTo)), req)
  {
    var plan := Take(Plan(n, sfc), upTo);
    assert forall o | o in plan :: o in Plan(n, sfc);
    forall o | o in plan
      ensures o.conditions == None
    {
      PlanMember(n, sfc, o);
    }
    AppliedAllAt(objects, plan, ServiceKey(n, req));
    AppliedAllAt(objects, plan, ChainKey(n, req));
  }

  lemma SparingKeepsPresent(n: Scheme, objects: Objects, e: Event, req: Request)
    requires Present(n, objects, req) && Spares(n, e, req)
    ensures Present(n, After(n, objects, e), req)
  {
    match e
    case Reconciled(sfc, upTo) =>
      if sfc.namespace == req.namespace && sfc.name == req.name {
        OwnPlanAt(n, objects, sfc, upTo, req);
      } else {
        OtherPlanKeepsPresent(n, objects, sfc, upTo, req);
      }
    case Swept(selector) =>
      var other: Request :| other != req && selector == SelectorOf(other);
      SelectorIsExact(objects[ServiceKey(n, req)], req.namespace, req.name, selector, other);
      SelectorIsExact(objects[ChainKey(n, req)], req.namespace, req.name, selector, other);
    case OtherApply(o) =>
    case Deleted(key) =>
    case Reported(_, _) =>
  }

  lemma {:induction false} HistoryKeepsPresent(n: Scheme, start: Objects, history: seq<Event>, req: Request)
    requires Present(n, start, req) && SparesAll(n, history, req)
    ensures Present(n, Run(n, start, history), req)
  {
    if history != [] {
      var front, e := history[..|history| - 1], history[|history| - 1];
      assert e in history && forall x | x in front :: x in history;
      HistoryKeepsPresent(n, start, front, req);
      SparingKeepsPresent(n, Run(n, start, front), e, req);
    }
  }

  lemma ProgrammedWhenPresent(n: Scheme, objects: Objects, req: Request, selector: Selector)
    requires selector == SelectorOf(req) && Single(n, objects, req, selector) && Present(n, objects, req)
    ensures forall k :: IsOwned(objects, DPUService, selector, k) <==> k == ServiceKey(n, req)
    ensures forall k :: IsOwned(objects, DPUServiceChain, selector, k) <==> k == ChainKey(n, req)
    ensures ChainProgrammed(objects, selector) <==>
              TrueReady(objects[ServiceKey(n, req)].conditions) && TrueReady(objects[ChainKey(n, req)].conditions)
  {
    SelectorIsExact(objects[ServiceKey(n, req)], req.namespace, req.name, selector, req);
    SelectorIsExact(objects[ChainKey(n, req)], req.namespace, req.name, selector, req);
    assert IsOwned(objects, DPUService, selector, ServiceKey(n, req));
    assert IsOwned(objects, DPUServiceChain, selector, ChainKey(n, req));
  }

  /** A store with nothing of the owner, any past, one live pass that applies its whole plan, and a future
      of further revisions, interrupted passes, condition reports and other owners' traffic that spares the
      owner's two keys. */
  ghost predicate Lived(n: Scheme, start: Objects, past: seq<Event>, live: Sfc, future: seq<Event>, req: Request) {
    && WellKeyed(start) && NothingOwned(start, SelectorOf(req))
    && live.namespace == req.namespace && live.name == req.name
    && OthersKeepOff(past, SelectorOf(req)) && OthersKeepOff(future, SelectorOf(req)) && SparesAll(n, future, req)
  }

  ghost function Now(n: Scheme, start: Objects, past: seq<Event>, live: Sfc, future: seq<Event>): Objects {
    Run(n, AppliedAll(Run(n, start, past), Plan(n, live)), future)
  }

  lemma LivingIsSettled(n: Scheme, start: Objects, past: seq<Event>, live: Sfc, future: seq<Event>, req: Request)
    requires Lived(n, start, past, live, future, req)
    ensures var now := Now(n, start, past, live, future);
            Single(n, now, req, SelectorOf(req)) && Present(n, now, req)
  {
    var selector := SelectorOf(req);
    var before := Run(n, start, past);
    HistoryKeepsSingle(n, start, past, req, selector);
    var all := |Plan(n, live)|;
    assert Take(Plan(n, live), all) == Plan(n, live);
    PlanKeepsSingle(n, before, live, all, req, selector);
    OwnPlanAt(n, before, live, all, req);
    var applied := AppliedAll(before, Plan(n, live));
    HistoryKeepsSingle(n, applied, future, req, selector);
    HistoryKeepsPresent(n, applied, future, req);
  }

  /** One live pass that applies its whole plan is enough: from then on, through any such future, the owner
      has exactly one service and one chain, so ChainProgrammed is true exactly when those two are Ready. */
  lemma ExactlyOneServiceAndChain(n: Scheme, start: Objects, past: seq<Event>, live: Sfc, future: seq<Event>,
                                  req: Request)
    requires Lived(n, start, past, live, future, req)
    ensures var now := Now(n, start, past, live, future);
            && ServiceKey(n, req) in now && ChainKey(n, req) in now
            && (forall k :: IsOwned(now, DPUService, SelectorOf(req), k) <==> k == ServiceKey(n, req))
            && (forall k :: IsOwned(now, DPUServiceChain, SelectorOf(req), k) <==> k == ChainKey(n, req))
            && (ChainProgrammed(now, SelectorOf(req)) <==>
                  TrueReady(now[ServiceKey(n, req)].conditions) && TrueReady(now[ChainKey(n, req)].conditions))
  {
    LivingIsSettled(n, start, past, live, future, req);
    ProgrammedWhenPresent(n, Now(n, start, past, live, future), req, SelectorOf(req));
  }

  /** Through any such history, reconciling again, with any revision and however far the pass gets, never
      loses readiness. */
  lemma ReconcilingKeepsReadiness(n: Scheme, start: Objects, past: seq<Event>, live: Sfc, future: seq<Event>,
                                  sfc: Sfc, upTo: nat, req: Request)
    requires Lived(n, start, past, live, future, req)
    requires sfc.namespace == req.namespace && sfc.name == req.name
    requires ChainProgrammed(Now(n, start, past, live, future), SelectorOf(req))
    ensures ChainProgrammed(After(n, Now(n, start, past, live, future), Reconciled(sfc, upTo)), SelectorOf(req))
  {
    LivingIsSettled(n, start, past, live, future, req);
    PassKeepsReadiness(n, Now(n, start, past, live, future), sfc, upTo, req);
  }

  lemma PassKeepsReadiness(n: Scheme, objects: Objects, sfc: Sfc, upTo: nat, req: Request)
    requires Single(n, objects, req, SelectorOf(req)) && Present(n, objects, req)
    requires sfc.namespace == req.namespace && sfc.name == req.name
    requires ChainProgrammed(objects, SelectorOf(req))
    ensures ChainProgrammed(After(n, objects, Reconciled(sfc, upTo)), SelectorOf(req))
  {
    var selector := SelectorOf(req);
    OwnPlanAt(n, objects, sfc, upTo, req);
    PlanKeepsSingle(n, objects, sfc, upTo, req, selector);
    ProgrammedWhenPresent(n, objects, req, selector);
    ProgrammedWhenPresent(n, After(n, objects, Reconciled(sfc, upTo)), req, selector);
  }

  // ---- What is published ---------------------------------------------------------------

  /** The conditions last reported on a key, or those it had to begin with. */
  function LastSaid(had: Option<seq<Condition>>, history: seq<Event>, key: string): Option<seq<Condition>> {
    if history == [] then had
    else
      var last := history[|history| - 1];
      if last.Reported? && last.key == key then last.conditions
      else LastSaid(had, history[..|history| - 1], key)
  }

  lemma StepKeepsConditions(n: Scheme, objects: Objects, e: Event, req: Request, key: string)
    requires Present(n, objects, req) && Spares(n, e, req) && (key == ServiceKey(n, req) || key == ChainKey(n, req))
    ensures var after := After(n, objects, e);
            && key in after
            && after[key].conditions == if e.Reported? && e.key == key then e.conditions else objects[key].conditions
  {
    match e
    case Reconciled(sfc, upTo) =>
      var plan := Take(Plan(n, sfc), upTo);
      assert forall o | o in plan :: o in Plan(n, sfc);
      forall o | o in plan
        ensures o.conditions == None
      {
        PlanMember(n, sfc, o);
      }
      PlanKeepsConditions(objects, plan);
    case Swept(_) => SparingKeepsPresent(n, objects, e, req);
    case OtherApply(_) =>
    case Deleted(_) =>
    case Reported(_, _) =>
  }

  lemma {:induction false} HistoryKeepsConditions(n: Scheme, start: Objects, history: seq<Event>, req: Request,
                                                  key: string)
    requires Present(n, start, req) && SparesAll(n, history, req)
    requires key == ServiceKey(n, req) || key == ChainKey(n, req)
    ensures key in Run(n, start, history)
    ensures Run(n, start, history)[key].conditions == LastSaid(start[key].conditions, history, key)
  {
    if history != [] {
      var front, e := history[..|history| - 1], history[|history| - 1];
      assert e in history && forall x | x in front :: x in history;
      HistoryKeepsConditions(n, start, front, req, key);
      HistoryKeepsPresent(n, start, front, req);
      StepKeepsConditions(n, Run(n, start, front), e, req, key);
    }
  }

  /** What the owner's object at a key has been told since it was last applied whole. */
  ghost function Told(n: Scheme, start: Objects, past: seq<Event>, future: seq<Event>, key: string)
      : Option<seq<Condition>> {
    LastSaid(ConditionsAt(Run(n, start, past), key), future, key)
  }

  lemma LivingIsTold(n: Scheme, start: Objects, past: seq<Event>, live: Sfc, future: seq<Event>, req: Request,
                     key: string)
    requires Lived(n, start, past, live, future, req) && (key == ServiceKey(n, req) || key == ChainKey(n, req))
    ensures var now := Now(n, start, past, live, future);
            key in now && now[key].conditions == Told(n, start, past, future, key)
  {
    var before := Run(n, start, past);
    var all := |Plan(n, live)|;
    assert Take(Plan(n, live), all) == Plan(n, live);
    OwnPlanAt(n, before, live, all, req);
    forall o | o in Plan(n, live)
      ensures o.conditions == None
    {
      PlanMember(n, live, o);
    }
    AppliedAllAt(before, Plan(n, live), key);
    InPlan(n, live);
    assert Key(ServiceObject(n, live)) == ServiceKey(n, req) && Key(ChainObject(n, live)) == ChainKey(n, req);
    HistoryKeepsConditions(n, AppliedAll(before, Plan(n, live)), future, req, key);
  }

  /** Whatever a pass publishes after any such history is true exactly when the last thing DPF said of each
      of the two objects holds a true Ready; until then it counts one chain and one service. */
  lemma PublishedIsWhatDpfSaid(n: Scheme, start: Objects, past: seq<Event>, live: Sfc, future: seq<Event>,
                               req: Request, c: Condition)
    requires Lived(n, start, past, live, future, req)
    requires Publishes(Now(n, start, past, live, future), SelectorOf(req), c)
    ensures c.kind == "ChainProgrammed"
    ensures c.status <==> TrueReady(Told(n, start, past, future, ServiceKey(n, req)))
                          && TrueReady(Told(n, start, past, future, ChainKey(n, req)))
    ensures c.status ==> c.reason == "AllDerivedObjectsReady" && c.message == ""
    ensures !c.status ==> && c.reason == "AwaitingDPFConvergence"
                          && c.message == "1" + " chain(s), " + "1" + " service(s) derived; waiting for Ready"
  {
    ExactlyOneServiceAndChain(n, start, past, live, future, req);
    LivingIsTold(n, start, past, live, future, req, ServiceKey(n, req));
    LivingIsTold(n, start, past, live, future, req, ChainKey(n, req));
    var now := Now(n, start, past, live, future);
    assert OwnedKeys(now, DPUService, SelectorOf(req)) == {ServiceKey(n, req)};
    assert OwnedKeys(now, DPUServiceChain, SelectorOf(req)) == {ChainKey(n, req)};
    assert Decimal(1) == "1";
  }

  /** A live pass takes nothing away: a key is in the store afterwards exactly when it was before or is
      planned, so what a revision drops stays until the SFC is deleted. */
  lemma RevisionPrunesNothing(n: Scheme, objects: Objects, sfc: Sfc, upTo: nat, k: string)
    ensures k in After(n, objects, Reconciled(sfc, upTo)) <==> k in objects || Planned(Take(Plan(n, sfc), upTo), k)
  {
    var plan := Take(Plan(n, sfc), upTo);
    assert forall o | o in plan :: o in Plan(n, sfc);
    forall o | o in plan
      ensures o.conditions == None
    {
      PlanMember(n, sfc, o);
    }
    AppliedAllAt(objects, plan, k);
  }

  // ---- When owners spare each other ----------------------------------------------------

  /** Another owner's reconcile spares the owner's two keys exactly when the names of the services and the
      names of the chains differ. */
  lemma SparesByName(n: Scheme, sfc: Sfc, upTo: nat, req: Request)
    requires sfc.namespace != req.namespace || sfc.name != req.name
    ensures Spares(n, Reconciled(sfc, upTo), req) <==>
              && n.name(sfc.namespace, sfc.name, "service") != n.name(req.namespace, req.name, "service")
              && n.name(sfc.namespace, sfc.name, "chain") != n.name(req.namespace, req.name, "chain")
  {
    InPlan(n, sfc);
    forall o | o in Plan(n, sfc)
      ensures Key(o) == ServiceKey(n, req) ==> o == ServiceObject(n, sfc)
      ensures Key(o) == ChainKey(n, req) ==> o == ChainObject(n, sfc)
    {
      PlanMember(n, sfc, o);
      KindOfKey(o, DPUService, n.name(req.namespace, req.name, "service"));
      KindOfKey(o, DPUServiceChain, n.name(req.namespace, req.name, "chain"));
    }
    KindOfKey(ServiceObject(n, sfc), DPUService, n.name(req.namespace, req.name, "service"));
    KindOfKey(ChainObject(n, sfc), DPUServiceChain, n.name(req.namespace, req.name, "chain"));
  }

  lemma KindOfKey(o: DpfObject, gvk: Gvk, name: string)
    requires o.gvk in OWNED_KINDS && gvk in OWNED_KINDS && o.namespace == MANAGED_NAMESPACE
    ensures Key(o) == KeyOf(gvk, MANAGED_NAMESPACE, name) <==> o.gvk == gvk && o.name == name
  {
    var q := DpfObject(gvk, MANAGED_NAMESPACE, name, map[], map[], None);
    if Key(o) == Key(q) {
      KeyFixesKind(o, q);
      SameTail(MANAGED_NAMESPACE + "/", o.name, name);
    }
  }

  lemma SameTail(prefix: string, a: string, b: string)
    requires prefix + a == prefix + b
    ensures a == b
  {
    assert (prefix + a)[|prefix|..] == a && (prefix + b)[|prefix|..] == b;
  }

  function OwnerText(namespace: string, name: string, role: string): string {
    namespace + "/" + name + "/" + role
  }

  /** Two owners get the same name for a role: their short hashes and their cleaned names agree. */
  ghost predicate Clash(p: Platform, a: Request, b: Request, role: string)
    requires Sound(p)
  {
    && ShortHash(p, OwnerText(a.namespace, a.name, role)) == ShortHash(p, OwnerText(b.namespace, b.name, role))
    && p.clean(a.name) == p.clean(b.name)
  }

  function ShortHash(p: Platform, text: string): (h: string)
    requires Sound(p)
    ensures |h| == 8
  {
    assert Hex(p.sha1(text), 40);
    p.sha1(text)[..8]
  }

  lemma NamesClash(p: Platform, a: Request, b: Request, role: string)
    requires Sound(p)
    ensures DeterministicName(p, a.namespace, a.name, role) == DeterministicName(p, b.namespace, b.name, role)
            <==> Clash(p, a, b, role)
  {
    NameParts(ShortHash(p, OwnerText(a.namespace, a.name, role)), p.clean(a.name),
              ShortHash(p, OwnerText(b.namespace, b.name, role)), p.clean(b.name));
  }

  lemma NameParts(h: string, x: string, i: string, y: string)
    requires |h| == |i| == 8
    ensures "opi-" + h + "-" + x == "opi-" + i + "-" + y <==> h == i && x == y
  {
    var s, t := "opi-" + h + "-" + x, "opi-" + i + "-" + y;
    assert s[4..12] == h && s[13..] == x && t[4..12] == i && t[13..] == y;
  }

  /** For the source's naming: another owner spares this one exactly when neither their service names nor
      their chain names clash. */
  lemma StandardSpares(p: Platform, sfc: Sfc, upTo: nat, req: Request)
    requires Sound(p) && (sfc.namespace != req.namespace || sfc.name != req.name)
    ensures var other := Request(sfc.namespace, sfc.name);
            Spares(StandardScheme(p), Reconciled(sfc, upTo), req)
            <==> !Clash(p, other, req, "service") && !Clash(p, other, req, "chain")
  {
    var other := Request(sfc.namespace, sfc.name);
    SparesByName(StandardScheme(p), sfc, upTo, req);
    NamesClash(p, other, req, "service");
    NamesClash(p, other, req, "chain");
  }

  ghost predicate ShortHashesTell(p: Platform, a: Request, b: Request, role: string)
    requires Sound(p)
  {
    var s, t := OwnerText(a.namespace, a.name, role), OwnerText(b.namespace, b.name, role);
    ShortHash(p, s) == ShortHash(p, t) ==> s == t
  }

  lemma OwnersDoNotClash(p: Platform, a: Request, b: Request, role: string)
    requires Sound(p) && a != b && ShortHashesTell(p, a, b, role)
    requires '/' !in a.namespace && '/' !in a.name && '/' !in b.namespace && '/' !in b.name
    ensures !Clash(p, a, b, role)
  {
    var s, t := OwnerText(a.namespace, a.name, role), OwnerText(b.namespace, b.name, role);
    if s == t {
      assert s == a.namespace + "/" + (a.name + "/" + role) && t == b.namespace + "/" + (b.name + "/" + role);
      SplitOnce(a.namespace, a.name + "/" + role, b.namespace, b.name + "/" + role, '/');
      SplitOnce(a.name, role, b.name, role, '/');
    }
  }

  /** So distinct owners with slash-free fields whose truncated hashes do not collide spare each other. */
  lemma SeparateOwnersSpare(p: Platform, sfc: Sfc, upTo: nat, req: Request)
    requires Sound(p) && Request(sfc.namespace, sfc.name) != req
    requires '/' !in sfc.namespace && '/' !in sfc.name && '/' !in req.namespace && '/' !in req.name
    requires ShortHashesTell(p, Request(sfc.namespace, sfc.name), req, "service")
    requires ShortHashesTell(p, Request(sfc.namespace, sfc.name), req, "chain")
    ensures Spares(StandardScheme(p), Reconciled(sfc, upTo), req)
  {
    var other := Request(sfc.namespace, sfc.name);
    OwnersDoNotClash(p, other, req, "service");
    OwnersDoNotClash(p, other, req, "chain");
    StandardSpares(p, sfc, upTo, req);
  }
}
