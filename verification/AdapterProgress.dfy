/** The other half of the adapter's safety: from every reachable state, what it withholds it can
    still deliver. Teardown releases the finalizer exactly when the children are gone, and a live
    SFC can always reach Ready. */
module AdapterProgress {
  import opened AdapterGates
  import opened AdapterCluster
  import opened AdapterSafety

  lemma RunSnoc(c: Cluster, events: seq<Event>, e: Event)
    ensures Run(c, events + [e]) == Step(Run(c, events), e)
  {
    assert (events + [e])[..|events|] == events;
  }

  lemma {:induction false} RunAppend(c: Cluster, a: seq<Event>, b: seq<Event>)
    ensures Run(c, a + b) == Run(Run(c, a), b)
  {
    if b == [] {
      assert a + b == a;
    } else {
      var front, e := b[..|b| - 1], b[|b| - 1];
      RunAppend(c, a, front);
      RunSnoc(c, a + front, e);
      RunSnoc(Run(c, a), front, e);
      assert b == front + [e] && a + b == a + front + [e];
    }
  }

  lemma {:induction false} RunKeepsInv(c: Cluster, events: seq<Event>)
    requires Inv(c)
    ensures Inv(Run(c, events))
  {
    if events != [] {
      RunKeepsInv(c, events[..|events| - 1]);
      StepKeepsInv(Run(c, events[..|events| - 1]), events[|events| - 1]);
    }
  }

  ghost predicate OnlyWork(events: seq<Event>, k: Key) {
    forall e | e in events :: e.Work? && e.key == k && e.fault == Fine
  }

  ghost predicate Drained(c: Cluster, owner: Uid) {
    Disowned(c, owner, Service) && Disowned(c, owner, Chain)
  }

  /** The one child of a kind that an owner can have, as a list call returns it. */
  ghost function Listing(c: Cluster, k: Key, kind: Kind, owner: Uid): (r: seq<ChildKey>)
    requires Inv(c) && owner in c.issued && c.issued[owner] == k
    ensures Lists(c, kind, owner, r)
    ensures r == [] || r == [ChildOf(k, kind)]
  {
    var ck := ChildOf(k, kind);
    assert forall other | Labelled(c, other, kind, owner) :: ChildOk(c, other) && other == ck;
    if Labelled(c, ck, kind, owner) then [ck] else []
  }

  ghost predicate IsRun(c: Cluster, events: seq<Event>, t: Cluster) {
    t == Run(c, events)
  }

  /** Fault-free steps of worker k lead from c to t, and nowhere else. (The equation is kept behind
      a quantifier so that using this relation does not unfold the run.) */
  ghost predicate Served(c: Cluster, k: Key, events: seq<Event>, t: Cluster) {
    && OnlyWork(events, k)
    && (forall r | IsRun(c, events, r) :: r == t)
    && Inv(t)
  }

  lemma ServedIsRun(c: Cluster, k: Key, events: seq<Event>, t: Cluster)
    requires Served(c, k, events, t)
    ensures Run(c, events) == t
  {
    assert IsRun(c, events, Run(c, events));
  }

  lemma Serve(c: Cluster, k: Key, events: seq<Event>, s: Cluster, listing: seq<ChildKey>) returns (more: seq<Event>)
    requires Served(c, k, events, s)
    ensures Served(c, k, more, WorkStep(s, k, Fine, listing))
  {
    more := events + [Work(k, Fine, listing)];
    ServedIsRun(c, k, events, s);
    RunSnoc(c, events, Work(k, Fine, listing));
    StepKeepsInv(s, Work(k, Fine, listing));
  }

  lemma ServeGet(c: Cluster, k: Key, events: seq<Event>, s: Cluster) returns (more: seq<Event>)
    requires Served(c, k, events, s) && WorkerOf(s, k).Idle?
    ensures Served(c, k, more, Goto(s, k, StartPass(s, k)))
  {
    more := Serve(c, k, events, s, []);
  }

  lemma ServeListServices(c: Cluster, k: Key, events: seq<Event>, s: Cluster) returns (more: seq<Event>)
    requires Served(c, k, events, s) && WorkerOf(s, k).DoomedListingServices?
    ensures var copy := WorkerOf(s, k).copy;
            Served(c, k, more, Goto(s, k, if Disowned(s, copy.uid, Service) then DoomedListingChains(copy, 0)
                                          else DoomedDeletingServices(copy, [ChildOf(k, Service)], 1)))
  {
    assert PcOk(s, k, WorkerOf(s, k));
    var owner := WorkerOf(s, k).copy.uid;
    var listing := Listing(s, k, Service, owner);
    EmptyListingDisowns(s, Service, owner, listing);
    more := Serve(c, k, events, s, listing);
  }

  lemma ServeListChains(c: Cluster, k: Key, events: seq<Event>, s: Cluster) returns (more: seq<Event>)
    requires Served(c, k, events, s) && WorkerOf(s, k).DoomedListingChains?
    ensures var pc := WorkerOf(s, k);
            Served(c, k, more,
                   Goto(s, k, if !Disowned(s, pc.copy.uid, Chain)
                              then DoomedDeletingChains(pc.copy, [ChildOf(k, Chain)], pc.remaining + 1)
                              else if pc.remaining > 0 then Idle
                              else ReleasingFinalizer(pc.copy)))
  {
    var listing := ListedChains(s, k);
    ChainsListed(s, k, listing);
    more := Serve(c, k, events, s, listing);
  }

  lemma ListedChains(s: Cluster, k: Key) returns (listing: seq<ChildKey>)
    requires Inv(s) && WorkerOf(s, k).DoomedListingChains?
    ensures Lists(s, Chain, WorkerOf(s, k).copy.uid, listing)
    ensures listing == [] || listing == [ChildOf(k, Chain)]
  {
    assert PcOk(s, k, WorkerOf(s, k));
    listing := Listing(s, k, Chain, WorkerOf(s, k).copy.uid);
  }

  lemma ChainsListed(s: Cluster, k: Key, listing: seq<ChildKey>)
    requires WorkerOf(s, k).DoomedListingChains? && Lists(s, Chain, WorkerOf(s, k).copy.uid, listing)
    ensures var pc := WorkerOf(s, k);
            && (listing == [] <==> Disowned(s, pc.copy.uid, Chain))
            && WorkStep(s, k, Fine, listing)
            == Goto(s, k, if listing != [] then DoomedDeletingChains(pc.copy, listing, pc.remaining + |listing|)
                          else if pc.remaining > 0 then Idle
                          else ReleasingFinalizer(pc.copy))
  {
    EmptyListingDisowns(s, Chain, WorkerOf(s, k).copy.uid, listing);
  }

  lemma ServeDelete(c: Cluster, k: Key, events: seq<Event>, s: Cluster) returns (more: seq<Event>)
    requires Served(c, k, events, s)
    requires var pc := WorkerOf(s, k); (pc.DoomedDeletingServices? || pc.DoomedDeletingChains?) && |pc.todo| == 1
    ensures var pc := WorkerOf(s, k);
            Served(c, k, more, Goto(Remove(s, pc.todo[0]), k,
                                    if pc.DoomedDeletingServices? then DoomedListingChains(pc.copy, pc.remaining)
                                    else Idle))
  {
    more := Serve(c, k, events, s, []);
  }

  lemma ServeRelease(c: Cluster, k: Key, events: seq<Event>, s: Cluster) returns (more: seq<Event>)
    requires Served(c, k, events, s)
    requires WorkerOf(s, k).ReleasingFinalizer? && k in s.sfcs && s.sfcs[k] == WorkerOf(s, k).copy
    ensures Served(c, k, more, Goto(PutSfc(s, k, s.sfcs[k].(finalizer := false)), k, Idle))
  {
    more := Serve(c, k, events, s, []);
  }

  /** What becomes of the children of one kind once a teardown pass has dealt with them. */
  ghost function Swept(c: Cluster, k: Key, kind: Kind, owner: Uid): Cluster {
    if Disowned(c, owner, kind) then c else Remove(c, ChildOf(k, kind))
  }

  /** Only the last program counter of a worker matters. */
  lemma GotoGoto(c: Cluster, k: Key, a: Pc, b: Pc)
    ensures Goto(Goto(c, k, a), k, b) == Goto(c, k, b)
    ensures forall ck :: Goto(Remove(Goto(c, k, a), ck), k, b) == Goto(Remove(c, ck), k, b)
    ensures forall s :: Goto(PutSfc(Goto(c, k, a), k, s), k, b) == Goto(PutSfc(c, k, s), k, b)
  {
    assert c.workers[k := a][k := b] == c.workers[k := b];
  }

  lemma GotoKeepsDisowned(c: Cluster, k: Key, a: Pc, owner: Uid, kind: Kind)
    ensures Disowned(Goto(c, k, a), owner, kind) == Disowned(c, owner, kind)
  {
  }

  /** The service half of an undisturbed teardown pass. */
  lemma TeardownServices(c: Cluster, k: Key) returns (events: seq<Event>)
    requires Inv(c) && k in c.sfcs && c.sfcs[k].deleting && WorkerOf(c, k).Idle?
    ensures var copy := c.sfcs[k];
            Served(c, k, events, Goto(Swept(c, k, Service, copy.uid), k,
                                      DoomedListingChains(copy, if Disowned(c, copy.uid, Service) then 0 else 1)))
  {
    var copy := c.sfcs[k];
    events := ServeGet(c, k, [], c);
    var c1 := Goto(c, k, DoomedListingServices(copy));
    events := ServeListServices(c, k, events, c1);
    GotoKeepsDisowned(c, k, DoomedListingServices(copy), copy.uid, Service);
    if Disowned(c, copy.uid, Service) {
      GotoGoto(c, k, DoomedListingServices(copy), DoomedListingChains(copy, 0));
    } else {
      var deleting := DoomedDeletingServices(copy, [ChildOf(k, Service)], 1);
      GotoGoto(c, k, DoomedListingServices(copy), deleting);
      events := ServeDelete(c, k, events, Goto(c, k, deleting));
      GotoGoto(c, k, deleting, DoomedListingChains(copy, 1));
    }
  }

  /** The chain half: the finalizer goes exactly when both lists were empty. */
  lemma TeardownChains(c: Cluster, k: Key, events: seq<Event>, s: Cluster) returns (more: seq<Event>)
    requires Served(c, k, events, s) && WorkerOf(s, k).DoomedListingChains?
    requires k in s.sfcs && s.sfcs[k] == WorkerOf(s, k).copy
    ensures var pc := WorkerOf(s, k);
            Served(c, k, more,
                   Goto(if Disowned(s, pc.copy.uid, Chain) && pc.remaining == 0
                        then PutSfc(s, k, pc.copy.(finalizer := false))
                        else Swept(s, k, Chain, pc.copy.uid), k, Idle))
  {
    var pc := WorkerOf(s, k);
    more := ServeListChains(c, k, events, s);
    if !Disowned(s, pc.copy.uid, Chain) {
      var deleting := DoomedDeletingChains(pc.copy, [ChildOf(k, Chain)], pc.remaining + 1);
      more := ServeDelete(c, k, more, Goto(s, k, deleting));
      GotoGoto(s, k, deleting, Idle);
    } else if pc.remaining == 0 {
      more := ServeRelease(c, k, more, Goto(s, k, ReleasingFinalizer(pc.copy)));
      GotoGoto(s, k, ReleasingFinalizer(pc.copy), Idle);
    }
  }

  lemma SweptIsDoomed(c: Cluster, k: Key, kind: Kind, owner: Uid)
    requires Inv(c) && owner in c.issued && c.issued[owner] == k
    ensures var d := Swept(c, k, kind, owner);
            && d.sfcs == c.sfcs && d.clock == c.clock
            && (forall ck | ck in d.children && ck.kind == kind && d.children[ck].owner == owner ::
                  d.children[ck].deleting)
            && (forall ck: ChildKey | ck.kind != kind ::
                  (ck in d.children <==> ck in c.children) && (ck in c.children ==> d.children[ck] == c.children[ck]))
  {
    forall ck | ck in c.children && c.children[ck].owner == owner
      ensures ck == ChildOf(k, ck.kind)
    {
      assert ChildOk(c, ck);
    }
  }

  /** An undisturbed teardown pass releases the finalizer exactly when no child is left; otherwise
      it keeps the SFC as it is and leaves every child it still owns marked for deletion. */
  lemma TeardownPass(c: Cluster, k: Key) returns (events: seq<Event>, d: Cluster)
    requires Inv(c) && k in c.sfcs && c.sfcs[k].deleting && WorkerOf(c, k).Idle?
    ensures Served(c, k, events, d)
    ensures var copy := c.sfcs[k];
            && k in d.sfcs && WorkerOf(d, k).Idle?
            && (if Drained(c, copy.uid)
                then d.sfcs[k] == copy.(finalizer := false, version := c.clock) && d.children == c.children
                else d.sfcs == c.sfcs)
            && forall ck | ck in d.children && d.children[ck].owner == copy.uid :: d.children[ck].deleting
  {
    var copy := c.sfcs[k];
    assert SfcOk(c, k);
    events := TeardownServices(c, k);
    SweptIsDoomed(c, k, Service, copy.uid);
    var s := Goto(Swept(c, k, Service, copy.uid), k,
                  DoomedListingChains(copy, if Disowned(c, copy.uid, Service) then 0 else 1));
    assert Disowned(s, copy.uid, Chain) == Disowned(c, copy.uid, Chain);
    events := TeardownChains(c, k, events, s);
    SweptIsDoomed(s, k, Chain, copy.uid);
    d := Goto(if Drained(c, copy.uid) then PutSfc(s, k, copy.(finalizer := false)) else Swept(s, k, Chain, copy.uid),
              k, Idle);
    forall ck | ck in d.children && d.children[ck].owner == copy.uid
      ensures d.children[ck].deleting
    {
      assert ck.kind == Service || ck.kind == Chain;
    }
  }

  /** DPF lets go of a child the adapter has marked. */
  lemma LettingGo(c: Cluster, ck: ChildKey)
    requires Inv(c)
    ensures var d := Step(c, FinalizeChild(ck));
            && Inv(d) && d.sfcs == c.sfcs && d.workers == c.workers
            && (ck in c.children && c.children[ck].deleting ==> ck !in d.children)
            && forall other | other in d.children ::
                 other in c.children && d.children[other].owner == c.children[other].owner
                 && d.children[other].deleting == c.children[other].deleting
  {
    StepKeepsInv(c, FinalizeChild(ck));
  }

  ghost predicate TeardownEvents(events: seq<Event>, k: Key) {
    forall e | e in events :: (e.Work? && e.key == k && e.fault == Fine) || e.FinalizeChild?
  }

  /** A first pass, and DPF letting go of what the pass marked. */
  lemma TeardownFirstPass(c: Cluster, k: Key) returns (events: seq<Event>, d: Cluster)
    requires Inv(c) && k in c.sfcs && c.sfcs[k].deleting && WorkerOf(c, k).Idle?
    ensures TeardownEvents(events, k) && IsRun(c, events, d) && Inv(d)
    ensures k in d.sfcs && d.sfcs[k].uid == c.sfcs[k].uid && d.sfcs[k].deleting && WorkerOf(d, k).Idle?
    ensures Drained(d, c.sfcs[k].uid)
  {
    assert SfcOk(c, k);
    var first, c1 := TeardownPass(c, k);
    assert SfcOk(c1, k);
    ServedIsRun(c, k, first, c1);
    var a, b := FinalizeChild(ChildOf(k, Service)), FinalizeChild(ChildOf(k, Chain));
    LettingGo(c1, ChildOf(k, Service));
    LettingGo(Step(c1, a), ChildOf(k, Chain));
    d := Step(Step(c1, a), b);
    DrainedAfterLettingGo(c1, Step(c1, a), d, k, c.sfcs[k].uid);
    TwoSteps(c1, a, b);
    RunAppend(c, first, [a, b]);
    events := first + [a, b];
  }

  lemma TeardownFrom(c: Cluster, k: Key) returns (events: seq<Event>, d: Cluster)
    requires Inv(c) && k in c.sfcs && c.sfcs[k].deleting && WorkerOf(c, k).Idle?
    ensures TeardownEvents(events, k) && IsRun(c, events, d)
    ensures k in d.sfcs && d.sfcs[k].uid == c.sfcs[k].uid && !d.sfcs[k].finalizer && Drained(d, c.sfcs[k].uid)
  {
    var s;
    events, s := TeardownFirstPass(c, k);
    var second;
    second, d := TeardownPass(s, k);
    ServedIsRun(s, k, second, d);
    RunAppend(c, events, second);
    events := events + second;
  }

  /** From every reachable state an idle worker whose SFC is being deleted can finish: its own
      passes and DPF letting go of what the passes deleted release the finalizer. */
  lemma TeardownCompletes(history: seq<Event>, k: Key) returns (events: seq<Event>)
    requires var c := Run(Init(), history);
             k in c.sfcs && c.sfcs[k].deleting && WorkerOf(c, k).Idle?
    ensures forall e | e in events :: (e.Work? && e.key == k && e.fault == Fine) || e.FinalizeChild?
    ensures var c := Run(Init(), history);
            var d := Run(Init(), history + events);
            && k in d.sfcs && d.sfcs[k].uid == c.sfcs[k].uid && !d.sfcs[k].finalizer
            && Drained(d, c.sfcs[k].uid)
  {
    EveryRunKeepsInv(history);
    var d;
    events, d := TeardownFrom(Run(Init(), history), k);
    RunAppend(Init(), history, events);
  }

  lemma TwoSteps(c: Cluster, a: Event, b: Event)
    ensures Run(c, [a, b]) == Step(Step(c, a), b)
  {
    OneStep(c, a);
    RunSnoc(c, [a], b);
    assert [a] + [b] == [a, b];
  }

  lemma OneStep(c: Cluster, e: Event)
    ensures Run(c, [e]) == Step(c, e)
  {
    RunSnoc(c, [], e);
    assert [] + [e] == [e];
  }

  lemma DrainedAfterLettingGo(c1: Cluster, c2: Cluster, c3: Cluster, k: Key, owner: Uid)
    requires Inv(c1) && owner in c1.issued && c1.issued[owner] == k
    requires forall ck | ck in c1.children && c1.children[ck].owner == owner :: c1.children[ck].deleting
    requires c2 == Step(c1, FinalizeChild(ChildOf(k, Service))) && c3 == Step(c2, FinalizeChild(ChildOf(k, Chain)))
    ensures Drained(c3, owner)
  {
    LettingGo(c1, ChildOf(k, Service));
    LettingGo(c2, ChildOf(k, Chain));
    forall ck | ck in c3.children
      ensures c3.children[ck].owner != owner
    {
      assert ChildOk(c1, ck);
      assert ck.kind == Service || ck.kind == Chain;
    }
  }

  // ---- Reaching Ready ------------------------------------------------------------------

  ghost predicate AppliedAt(c: Cluster, k: Key, kind: Kind, copy: Sfc) {
    var ck := ChildOf(k, kind);
    ck in c.children && c.children[ck].owner == copy.uid && Translates(copy, kind, c.children[ck].spec)
  }

  /** What applying does to the child of one name: it exists and is the object it was, with another label
      and spec, and a later generation exactly when the spec is another. */
  ghost predicate Respecced(c: Cluster, d: Cluster, ck: ChildKey) {
    && ck in d.children
    && if ck !in c.children then d.children[ck].generation == 1 && d.children[ck].observed == 0
       else
         && d.children[ck] == c.children[ck].(owner := d.children[ck].owner, spec := d.children[ck].spec,
                                              generation := d.children[ck].generation)
         && d.children[ck].generation
            == c.children[ck].generation + if d.children[ck].spec == c.children[ck].spec then 0 else 1
  }

  lemma ServeApply(c: Cluster, k: Key, events: seq<Event>, s: Cluster) returns (more: seq<Event>, t: Cluster)
    requires Served(c, k, events, s) && (WorkerOf(s, k).ApplyingService? || WorkerOf(s, k).ApplyingChain?)
    ensures var copy := WorkerOf(s, k).copy;
            var ck := ChildOf(k, if WorkerOf(s, k).ApplyingService? then Service else Chain);
            && Served(c, k, more, t) && t.sfcs == s.sfcs && t.log == s.log
            && !WorkerOf(t, k).Idle? && WorkerOf(t, k).copy == copy && AppliedAt(t, k, ck.kind, copy)
            && (if WorkerOf(s, k).ApplyingService? then WorkerOf(t, k).ApplyingChain?
                else WorkerOf(t, k).ListingServices?)
            && Respecced(s, t, ck) && t.children - {ck} == s.children - {ck}
  {
    more := Serve(c, k, events, s, []);
    PatchApplies(s, k, Fine);
    t := WorkStep(s, k, Fine, []);
  }

  lemma Elsewhere(c: Cluster, d: Cluster, ck: ChildKey, other: ChildKey)
    requires d.children - {ck} == c.children - {ck} && other != ck
    ensures other in d.children <==> other in c.children
    ensures other in c.children ==> d.children[other] == c.children[other]
  {
    assert other in d.children - {ck} <==> other in c.children - {ck};
    if other in c.children {
      assert (d.children - {ck})[other] == (c.children - {ck})[other];
    }
  }

  /** The apply half of an undisturbed pass over a live SFC leaves both children in place, with the
      SFC's label and its translation. */
  lemma ApplyHalf(c: Cluster, k: Key) returns (events: seq<Event>, d: Cluster)
    requires Inv(c) && k in c.sfcs && !c.sfcs[k].deleting && c.sfcs[k].finalizer && WorkerOf(c, k).Idle?
    ensures Served(c, k, events, d)
    ensures && d.sfcs == c.sfcs && d.log == c.log
            && WorkerOf(d, k).ListingServices? && WorkerOf(d, k).copy == c.sfcs[k]
            && AppliedAt(d, k, Service, c.sfcs[k]) && AppliedAt(d, k, Chain, c.sfcs[k])
            && Respecced(c, d, ChildOf(k, Service)) && Respecced(c, d, ChildOf(k, Chain))
    ensures forall ck | ck != ChildOf(k, Service) && ck != ChildOf(k, Chain) ::
              (ck in d.children <==> ck in c.children) && (ck in c.children ==> d.children[ck] == c.children[ck])
  {
    events := ServeGet(c, k, [], c);
    var c1 := Goto(c, k, ApplyingService(c.sfcs[k]));
    var c2;
    var svc, chain := ChildOf(k, Service), ChildOf(k, Chain);
    events, c2 := ServeApply(c, k, events, c1);
    events, d := ServeApply(c, k, events, c2);
    forall ck | ck != svc || ck != chain
      ensures ck != svc ==> (ck in c2.children <==> ck in c.children)
                            && (ck in c.children ==> c2.children[ck] == c.children[ck])
      ensures ck != chain ==> (ck in d.children <==> ck in c2.children)
                              && (ck in c2.children ==> d.children[ck] == c2.children[ck])
    {
      if ck != svc {
        Elsewhere(c1, c2, svc, ck);
      }
      if ck != chain {
        Elsewhere(c2, d, chain, ck);
      }
    }
  }

  ghost predicate ReportedReady(c: Cluster, ck: ChildKey) {
    ck in c.children && c.children[ck].ready == "True" && c.children[ck].observed == c.children[ck].generation
  }

  lemma ServeObserveServices(c: Cluster, k: Key, events: seq<Event>, s: Cluster) returns (more: seq<Event>)
    requires Served(c, k, events, s) && WorkerOf(s, k).ListingServices?
    requires AppliedAt(s, k, Service, WorkerOf(s, k).copy)
    ensures var pc := WorkerOf(s, k);
            Served(c, k, more, Goto(s, k, ListingChains(pc.copy, pc.receipts, [SeenAt(s, ChildOf(k, Service))])))
  {
    var pc := WorkerOf(s, k);
    assert PcOk(s, k, pc);
    var listing := Listing(s, k, Service, pc.copy.uid);
    assert listing == [ChildOf(k, Service)];
    assert Project(s, listing) == [SeenAt(s, ChildOf(k, Service))];
    more := Serve(c, k, events, s, listing);
  }

  lemma ServeObserveChains(c: Cluster, k: Key, events: seq<Event>, s: Cluster) returns (more: seq<Event>)
    requires Served(c, k, events, s) && WorkerOf(s, k).ListingChains?
    requires AppliedAt(s, k, Chain, WorkerOf(s, k).copy)
    ensures var pc := WorkerOf(s, k);
            var all := pc.seen + [SeenAt(s, ChildOf(k, Chain))];
            Served(c, k, more, Goto(s, k, if pc.copy.conditions == [TargetOf(pc.copy, all)] then Idle
                                          else WritingStatus(pc.copy, pc.receipts, all)))
  {
    var pc := WorkerOf(s, k);
    assert PcOk(s, k, pc);
    var listing := Listing(s, k, Chain, pc.copy.uid);
    assert listing == [ChildOf(k, Chain)];
    assert Project(s, listing) == [SeenAt(s, ChildOf(k, Chain))];
    EqualityGateOnTarget(pc.copy.conditions, TargetOf(pc.copy, pc.seen + Project(s, listing)));
    more := Serve(c, k, events, s, listing);
  }

  lemma ServeWrite(c: Cluster, k: Key, events: seq<Event>, s: Cluster) returns (more: seq<Event>, t: Cluster)
    requires Served(c, k, events, s) && WorkerOf(s, k).WritingStatus? && k in s.sfcs && s.sfcs[k] == WorkerOf(s, k).copy
    ensures Served(c, k, more, t) && k in t.sfcs && t.children == s.children && WorkerOf(t, k).Idle?
    ensures var pc := WorkerOf(s, k);
            && t.sfcs[k] == pc.copy.(conditions := [TargetOf(pc.copy, pc.seen)], version := s.clock)
            && t.log == s.log + [StatusWrite(pc.copy, TargetOf(pc.copy, pc.seen), pc.receipts, pc.seen)]
  {
    more := Serve(c, k, events, s, []);
    t := WorkStep(s, k, Fine, []);
  }

  function SeenAt(c: Cluster, ck: ChildKey): Seen
    requires ck in c.children
  {
    Seen(ck, c.children[ck])
  }

  /** What a pass observes when both its children are there. */
  function BothSeen(c: Cluster, k: Key): seq<Seen>
    requires ChildOf(k, Service) in c.children && ChildOf(k, Chain) in c.children
  {
    [SeenAt(c, ChildOf(k, Service))] + [SeenAt(c, ChildOf(k, Chain))]
  }

  /** The observing half: the pass leaves its verdict on the two children as the SFC's status. */
  lemma ObserveHalf(c: Cluster, k: Key) returns (events: seq<Event>, d: Cluster)
    requires Inv(c) && k in c.sfcs && WorkerOf(c, k).ListingServices? && WorkerOf(c, k).copy == c.sfcs[k]
    requires AppliedAt(c, k, Service, c.sfcs[k]) && AppliedAt(c, k, Chain, c.sfcs[k])
    ensures Served(c, k, events, d) && d.children == c.children && WorkerOf(d, k).Idle?
    ensures k in d.sfcs && d.sfcs[k] == c.sfcs[k].(conditions := [TargetOf(c.sfcs[k], BothSeen(c, k))],
                                                   version := d.sfcs[k].version)
  {
    var copy := c.sfcs[k];
    var pc := WorkerOf(c, k);
    var svc := ChildOf(k, Service);
    ServedNothing(c, k);
    events := ServeObserveServices(c, k, [], c);
    var c1 := Goto(c, k, ListingChains(copy, pc.receipts, [SeenAt(c, svc)]));
    events := ServeObserveChains(c, k, events, c1);
    var all := BothSeen(c, k);
    if copy.conditions == [TargetOf(copy, all)] {
      d := Goto(c1, k, Idle);
    } else {
      events, d := ServeWrite(c, k, events, Goto(c1, k, WritingStatus(copy, pc.receipts, all)));
    }
  }

  lemma BothReady(c: Cluster, k: Key, copy: Sfc, all: seq<Seen>)
    requires Inv(c) && ReportedReady(c, ChildOf(k, Service)) && ReportedReady(c, ChildOf(k, Chain))
    requires all == BothSeen(c, k)
    ensures TargetOf(copy, all) == AllReady(copy.generation)
  {
    assert ChildOk(c, ChildOf(k, Service)) && ChildOk(c, ChildOf(k, Chain));
    ReadyExactly(Statuses(all), copy.generation);
  }

  lemma ReportWorks(c: Cluster, k: Key, kind: Kind)
    requires Inv(c) && ChildOf(k, kind) in c.children
    ensures var ck := ChildOf(k, kind);
            var d := Step(c, ReportChild(ck, c.children[ck].generation, "True"));
            && Inv(d) && d.sfcs == c.sfcs && d.workers == c.workers && d.log == c.log && ReportedReady(d, ck)
            && forall other | other in c.children ::
                 && other in d.children && d.children[other].owner == c.children[other].owner
                 && d.children[other].spec == c.children[other].spec
                 && d.children[other].generation == c.children[other].generation
                 && (other != ck ==> d.children[other] == c.children[other])
  {
    StepKeepsInv(c, ReportChild(ChildOf(k, kind), c.children[ChildOf(k, kind)].generation, "True"));
  }

  lemma ServedNothing(c: Cluster, k: Key)
    requires Inv(c)
    ensures Served(c, k, [], c)
  {
  }

  /** A live SFC that the adapter has not yet touched takes one pass to get the finalizer. */
  lemma Adopt(c: Cluster, k: Key) returns (events: seq<Event>, d: Cluster)
    requires Inv(c) && k in c.sfcs && !c.sfcs[k].deleting && WorkerOf(c, k).Idle?
    ensures Served(c, k, events, d)
    ensures k in d.sfcs && d.sfcs[k] == c.sfcs[k].(finalizer := true, version := d.sfcs[k].version)
    ensures WorkerOf(d, k).Idle? && d.log == c.log
  {
    events, d := [], c;
    ServedNothing(c, k);
    if !c.sfcs[k].finalizer {
      events := ServeGet(c, k, events, c);
      var c1 := Goto(c, k, AddingFinalizer(c.sfcs[k]));
      events := Serve(c, k, events, c1, []);
      d := WorkStep(c1, k, Fine, []);
    }
  }

  ghost predicate ReadyEvents(events: seq<Event>, k: Key) {
    forall e | e in events :: (e.Work? && e.key == k && e.fault == Fine) || e.ReportChild?
  }

  lemma ReadyFrom(c: Cluster, k: Key) returns (events: seq<Event>, d: Cluster)
    requires Inv(c) && k in c.sfcs && !c.sfcs[k].deleting && c.sfcs[k].finalizer && WorkerOf(c, k).Idle?
    ensures ReadyEvents(events, k) && IsRun(c, events, d)
    ensures && k in d.sfcs && d.sfcs[k].uid == c.sfcs[k].uid && d.sfcs[k].generation == c.sfcs[k].generation
            && d.sfcs[k].conditions == [AllReady(c.sfcs[k].generation)]
  {
    var first, c1 := ApplyHalf(c, k);
    var svc, chain := ChildOf(k, Service), ChildOf(k, Chain);
    var reportSvc := ReportChild(svc, c1.children[svc].generation, "True");
    var reportChain := ReportChild(chain, c1.children[chain].generation, "True");
    var c3 := BothReport(c1, k, reportSvc, reportChain);
    var last;
    last, d := ObserveHalf(c3, k);
    BothReady(c3, k, c3.sfcs[k], BothSeen(c3, k));
    events := first + [reportSvc, reportChain] + last;
    ServedIsRun(c, k, first, c1);
    ServedIsRun(c3, k, last, d);
    RunAppend(c, first, [reportSvc, reportChain]);
    RunAppend(c, first + [reportSvc, reportChain], last);
  }

  lemma BothReport(c: Cluster, k: Key, a: Event, b: Event) returns (d: Cluster)
    requires Inv(c) && k in c.sfcs && AppliedAt(c, k, Service, c.sfcs[k]) && AppliedAt(c, k, Chain, c.sfcs[k])
    requires a == ReportChild(ChildOf(k, Service), c.children[ChildOf(k, Service)].generation, "True")
    requires b == ReportChild(ChildOf(k, Chain), c.children[ChildOf(k, Chain)].generation, "True")
    ensures d == Run(c, [a, b]) && Inv(d) && d.sfcs == c.sfcs && d.workers == c.workers
    ensures AppliedAt(d, k, Service, c.sfcs[k]) && AppliedAt(d, k, Chain, c.sfcs[k])
    ensures ReportedReady(d, ChildOf(k, Service)) && ReportedReady(d, ChildOf(k, Chain))
  {
    ReportWorks(c, k, Service);
    var middle := Step(c, a);
    ReportWorks(middle, k, Chain);
    d := Step(middle, b);
    TwoSteps(c, a, b);
  }

  // ---- What a pass reports -------------------------------------------------------------

  /** DPF has caught up with the child's spec and reports it Ready. */
  ghost predicate ShowsReady(c: Cluster, ck: ChildKey) {
    ck in c.children && c.children[ck].observed >= c.children[ck].generation && c.children[ck].ready == "True"
  }

  lemma BothReported(c: Cluster, k: Key, copy: Sfc)
    requires Inv(c) && ChildOf(k, Service) in c.children && ChildOf(k, Chain) in c.children
    ensures var r := TargetOf(copy, BothSeen(c, k));
            && r.kind == "Ready" && r.observedGeneration == copy.generation
            && r.status == if ShowsReady(c, ChildOf(k, Service)) && ShowsReady(c, ChildOf(k, Chain)) then "True"
                           else "False"
  {
    var statuses := Statuses(BothSeen(c, k));
    assert ChildOk(c, ChildOf(k, Service)) && ChildOk(c, ChildOf(k, Chain));
    VerdictIsTrueOrFalse(statuses, copy.generation);
    ReadyExactly(statuses, copy.generation);
    assert statuses[0] in statuses && statuses[1] in statuses;
  }

  lemma PassFrom(c: Cluster, k: Key) returns (events: seq<Event>, d: Cluster)
    requires Inv(c) && k in c.sfcs && !c.sfcs[k].deleting && c.sfcs[k].finalizer && WorkerOf(c, k).Idle?
    ensures OnlyWork(events, k) && IsRun(c, events, d) && Inv(d) && Reported(c, d, k)
  {
    var first, c1 := ApplyHalf(c, k);
    var last;
    last, d := ObserveHalf(c1, k);
    PassAdds(c, c1, d, k);
    ServedTwice(c, k, first, c1, last, d);
    events := first + last;
  }

  lemma ServedTwice(c: Cluster, k: Key, first: seq<Event>, c1: Cluster, last: seq<Event>, d: Cluster)
    requires Served(c, k, first, c1) && Served(c1, k, last, d)
    ensures OnlyWork(first + last, k) && IsRun(c, first + last, d) && Inv(d)
  {
    ServedIsRun(c, k, first, c1);
    ServedIsRun(c1, k, last, d);
    RunAppend(c, first, last);
  }

  lemma PassAdds(c: Cluster, c1: Cluster, d: Cluster, k: Key)
    requires k in c.sfcs && Inv(c1) && c1.sfcs == c.sfcs && d.children == c1.children && WorkerOf(d, k).Idle?
    requires AppliedAt(c1, k, Service, c.sfcs[k]) && Respecced(c, c1, ChildOf(k, Service))
    requires AppliedAt(c1, k, Chain, c.sfcs[k]) && Respecced(c, c1, ChildOf(k, Chain))
    requires forall ck | ck != ChildOf(k, Service) && ck != ChildOf(k, Chain) ::
               (ck in c1.children <==> ck in c.children) && (ck in c.children ==> c1.children[ck] == c.children[ck])
    requires k in d.sfcs && d.sfcs[k] == c.sfcs[k].(conditions := [TargetOf(c.sfcs[k], BothSeen(c1, k))],
                                                    version := d.sfcs[k].version)
    ensures Reported(c, d, k)
  {
    BothReported(c1, k, c.sfcs[k]);
  }

  /** Both children carry the SFC's label and its present spec, with a later generation exactly where the
      spec was another before, and no other child has changed; the SFC's status is one condition for its
      present generation, true exactly when DPF has caught up with both children and reports them Ready. */
  ghost predicate Reported(c: Cluster, d: Cluster, k: Key)
    requires k in c.sfcs
  {
    var svc, chain := ChildKey(Service, k.name + "-svc"), ChildKey(Chain, k.name + "-chain");
    && k in d.sfcs && |d.sfcs[k].conditions| == 1 && WorkerOf(d, k).Idle?
    && d.sfcs[k] == c.sfcs[k].(conditions := d.sfcs[k].conditions, version := d.sfcs[k].version)
    && Respecced(c, d, svc) && d.children[svc].spec == Image(c.sfcs[k].image)
    && Respecced(c, d, chain) && d.children[chain].spec == ChildSpec.Selector(c.sfcs[k].uid)
    && d.children[svc].owner == d.children[chain].owner == c.sfcs[k].uid
    && (forall ck | ck != svc && ck != chain ::
          (ck in d.children <==> ck in c.children) && (ck in c.children ==> d.children[ck] == c.children[ck]))
    && (var r := d.sfcs[k].conditions[0];
        && r.kind == "Ready" && r.observedGeneration == c.sfcs[k].generation
        && r.status == if ShowsReady(d, svc) && ShowsReady(d, chain) then "True" else "False")
  }

  /** From every reachable state an undisturbed pass over a live SFC that holds the finalizer brings the
      children to the SFC's spec and its status to the truth about them. */
  lemma PassReports(history: seq<Event>, k: Key) returns (events: seq<Event>)
    requires var c := Run(Init(), history);
             k in c.sfcs && !c.sfcs[k].deleting && c.sfcs[k].finalizer && WorkerOf(c, k).Idle?
    ensures OnlyWork(events, k) && Reported(Run(Init(), history), Run(Init(), history + events), k)
  {
    EveryRunKeepsInv(history);
    var d;
    events, d := PassFrom(Run(Init(), history), k);
    RunAppend(Init(), history, events);
  }

  /** So right after an edit of the image, and whatever DPF had declared, that pass takes Ready away. */
  lemma EditTakesReadyAway(history: seq<Event>, k: Key) returns (events: seq<Event>)
    requires var c := Run(Init(), history);
             && k in c.sfcs && !c.sfcs[k].deleting && c.sfcs[k].finalizer && WorkerOf(c, k).Idle?
             && (ChildKey(Service, k.name + "-svc") in c.children ==>
                   c.children[ChildKey(Service, k.name + "-svc")].spec != Image(c.sfcs[k].image))
    ensures OnlyWork(events, k)
    ensures var d := Run(Init(), history + events);
            k in d.sfcs && |d.sfcs[k].conditions| == 1 && d.sfcs[k].conditions[0].status == "False"
  {
    EveryRunKeepsInv(history);
    events := PassReports(history, k);
    var svc := ChildKey(Service, k.name + "-svc");
    assert svc == ChildOf(k, Service);
    assert ChildOk(Run(Init(), history), svc);
  }

  /** From every reachable state an idle worker with a live SFC can reach Ready=True for the SFC's
      present generation: a pass for the finalizer if it is missing, and one pass during which DPF
      reports on what the pass applied. */
  lemma ReadyIsReachable(history: seq<Event>, k: Key) returns (events: seq<Event>)
    requires var c := Run(Init(), history);
             k in c.sfcs && !c.sfcs[k].deleting && WorkerOf(c, k).Idle?
    ensures forall e | e in events :: (e.Work? && e.key == k && e.fault == Fine) || e.ReportChild?
    ensures var c := Run(Init(), history);
            var d := Run(Init(), history + events);
            && k in d.sfcs && d.sfcs[k].uid == c.sfcs[k].uid
            && d.sfcs[k].conditions == [AllReady(c.sfcs[k].generation)]
            && d.sfcs[k].generation == c.sfcs[k].generation
  {
    EveryRunKeepsInv(history);
    var c := Run(Init(), history);
    var first, s := Adopt(c, k);
    ServedIsRun(c, k, first, s);
    var last, d := ReadyFrom(s, k);
    RunAppend(c, first, last);
    events := first + last;
    RunAppend(Init(), history, events);
  }
}
