/** What a written status rests on: exactly which of the two applied children a pass listed. */
module AdapterEvidence {
  import opened AdapterGates
  import opened AdapterCluster
  import opened AdapterSafety
  import opened AdapterProgress

  // ---- What a pass lists ---------------------------------------------------------------

  ghost predicate HasKind(seen: seq<Seen>, kind: Kind) {
    exists i :: 0 <= i < |seen| && seen[i].key.kind == kind
  }

  /** The i-th event is worker k's list call of a kind, for a pass with that copy. */
  ghost predicate ListCall(events: seq<Event>, k: Key, kind: Kind, copy: Sfc, i: int) {
    && 0 <= i < |events| && events[i].Work? && events[i].key == k && events[i].fault == Fine
    && var c := Run(Init(), events[..i]);
       var pc := WorkerOf(c, k);
       && (if kind == Service then pc.ListingServices? else pc.ListingChains?) && pc.copy == copy
       && Lists(c, kind, copy.uid, events[i].listing)
  }

  /** What that call returned. */
  ghost function ListedBy(events: seq<Event>, k: Key, kind: Kind, copy: Sfc, i: int): seq<Seen>
    requires ListCall(events, k, kind, copy, i)
  {
    Project(Run(Init(), events[..i]), events[i].listing)
  }

  /** Worker k is within a pass once m events have happened. */
  ghost predicate BusyAt(events: seq<Event>, k: Key, m: int) {
    0 <= m <= |events| && !WorkerOf(Run(Init(), events[..m]), k).Idle?
  }

  /** Worker k has been within one and the same pass ever since the i-th event. */
  ghost predicate SamePass(events: seq<Event>, k: Key, i: int) {
    0 <= i && forall m | i < m <= |events| :: BusyAt(events, k, m)
  }

  lemma BusyNow(events: seq<Event>, k: Key)
    requires !WorkerOf(Run(Init(), events), k).Idle?
    ensures BusyAt(events, k, |events|)
  {
    assert events[..|events|] == events;
  }

  lemma BusyBefore(front: seq<Event>, e: Event, k: Key, m: int)
    requires BusyAt(front, k, m)
    ensures BusyAt(front + [e], k, m)
  {
    assert (front + [e])[..m] == front[..m];
  }

  ghost predicate ServicesListed(events: seq<Event>, k: Key, copy: Sfc, seen: seq<Seen>, i: int) {
    && ListCall(events, k, Service, copy, i) && SamePass(events, k, i)
    && seen == ListedBy(events, k, Service, copy, i)
  }

  /** The present pass of worker k made its two list calls at i and j, and its evidence is what they
      returned. */
  ghost predicate BothListed(events: seq<Event>, k: Key, copy: Sfc, seen: seq<Seen>, i: int, j: int) {
    && i < j && ListCall(events, k, Service, copy, i) && ListCall(events, k, Chain, copy, j)
    && SamePass(events, k, i)
    && seen == ListedBy(events, k, Service, copy, i) + ListedBy(events, k, Chain, copy, j)
  }

  ghost predicate Evidenced(events: seq<Event>, k: Key, pc: Pc) {
    && (pc.ListingChains? ==> exists i :: ServicesListed(events, k, pc.copy, pc.seen, i))
    && (pc.WritingStatus? ==> exists i, j :: BothListed(events, k, pc.copy, pc.seen, i, j))
  }

  lemma LongerCall(front: seq<Event>, e: Event, k: Key, kind: Kind, copy: Sfc, i: int)
    requires ListCall(front, k, kind, copy, i)
    ensures ListCall(front + [e], k, kind, copy, i)
    ensures ListedBy(front + [e], k, kind, copy, i) == ListedBy(front, k, kind, copy, i)
  {
    assert (front + [e])[..i] == front[..i];
  }

  lemma LongerPass(front: seq<Event>, e: Event, k: Key, i: int)
    requires SamePass(front, k, i) && !WorkerOf(Run(Init(), front + [e]), k).Idle?
    ensures SamePass(front + [e], k, i)
  {
    var events := front + [e];
    BusyNow(events, k);
    forall m | i < m <= |front|
      ensures BusyAt(events, k, m)
    {
      BusyBefore(front, e, k, m);
    }
  }

  lemma LongerHistory(front: seq<Event>, e: Event, k: Key, pc: Pc)
    requires Evidenced(front, k, pc) && !WorkerOf(Run(Init(), front + [e]), k).Idle?
    ensures Evidenced(front + [e], k, pc)
  {
    if pc.ListingChains? {
      var i :| ServicesListed(front, k, pc.copy, pc.seen, i);
      LongerCall(front, e, k, Service, pc.copy, i);
      LongerPass(front, e, k, i);
      assert ServicesListed(front + [e], k, pc.copy, pc.seen, i);
    } else if pc.WritingStatus? {
      var i, j :| BothListed(front, k, pc.copy, pc.seen, i, j);
      LongerCall(front, e, k, Service, pc.copy, i);
      LongerCall(front, e, k, Chain, pc.copy, j);
      LongerPass(front, e, k, i);
      assert BothListed(front + [e], k, pc.copy, pc.seen, i, j);
    }
  }

  ghost predicate OnlyKind(seen: seq<Seen>, kind: Kind) {
    forall i | 0 <= i < |seen| :: seen[i].key.kind == kind
  }

  lemma OthersKeepWorker(c: Cluster, e: Event, k: Key)
    requires !(e.Work? && e.key == k)
    ensures WorkerOf(Step(c, e), k) == WorkerOf(c, k) || WorkerOf(Step(c, e), k).Idle?
  {
    if e.Work? {
      WorkMovesOneWorker(c, e.key, e.fault, e.listing, k);
    }
  }

  lemma WorkMovesOneWorker(c: Cluster, k: Key, fault: Fault, listing: seq<ChildKey>, other: Key)
    requires other != k
    ensures WorkerOf(WorkStep(c, k, fault, listing), other) == WorkerOf(c, other)
  {
    if Doomed(WorkerOf(c, k)) {
      DoomedMovesOneWorker(c, k, fault, listing, other);
    } else {
      LiveMovesOneWorker(c, k, fault, listing, other);
    }
  }

  lemma DoomedMovesOneWorker(c: Cluster, k: Key, fault: Fault, listing: seq<ChildKey>, other: Key)
    requires other != k && Doomed(WorkerOf(c, k))
    ensures WorkerOf(WorkStep(c, k, fault, listing), other) == WorkerOf(c, other)
  {
  }

  lemma LiveMovesOneWorker(c: Cluster, k: Key, fault: Fault, listing: seq<ChildKey>, other: Key)
    requires other != k && !Doomed(WorkerOf(c, k))
    ensures WorkerOf(WorkStep(c, k, fault, listing), other) == WorkerOf(c, other)
  {
  }

  /** A pass comes to list chains only by listing services, and to write only by listing chains. */
  lemma OnlyListingLeadsOn(c: Cluster, k: Key, fault: Fault, listing: seq<ChildKey>)
    ensures var pc, next := WorkerOf(c, k), WorkerOf(WorkStep(c, k, fault, listing), k);
            && (next.ListingChains? ==>
                  || next == pc
                  || (pc.ListingServices? && fault == Fine && Lists(c, Service, pc.copy.uid, listing)
                      && next.copy == pc.copy && next.seen == Project(c, listing)))
            && (next.WritingStatus? ==>
                  && pc.ListingChains? && fault == Fine && Lists(c, Chain, pc.copy.uid, listing)
                  && next.copy == pc.copy && next.seen == pc.seen + Project(c, listing))
  {
  }

  /** What one list call adds to the evidence. */
  lemma ListingTells(c: Cluster, k: Key, kind: Kind, copy: Sfc, listing: seq<ChildKey>)
    requires Inv(c) && CopyOk(c, k, copy) && Lists(c, kind, copy.uid, listing)
    ensures OnlyKind(Project(c, listing), kind)
    ensures HasKind(Project(c, listing), kind) <==> Labelled(c, ChildOf(k, kind), kind, copy.uid)
  {
    var seen := Project(c, listing);
    assert forall i | 0 <= i < |listing| :: seen[i].key == listing[i] && listing[i] in listing;
    forall i | 0 <= i < |listing|
      ensures listing[i] == ChildOf(k, kind)
    {
      assert ChildOk(c, listing[i]);
    }
    if Labelled(c, ChildOf(k, kind), kind, copy.uid) {
      assert ChildOf(k, kind) in listing;
      assert seen[0].key.kind == kind;
    }
  }

  lemma AddingChains(services: seq<Seen>, chains: seq<Seen>)
    requires OnlyKind(services, Service) && OnlyKind(chains, Chain)
    ensures HasKind(services + chains, Service) <==> HasKind(services, Service)
    ensures HasKind(services + chains, Chain) <==> HasKind(chains, Chain)
  {
    var all := services + chains;
    assert forall i | 0 <= i < |services| :: all[i] == services[i];
    assert forall i | 0 <= i < |chains| :: all[|services| + i] == chains[i];
  }

  lemma CallNow(front: seq<Event>, e: Event, k: Key, kind: Kind, copy: Sfc)
    requires var c := Run(Init(), front);
             var pc := WorkerOf(c, k);
             && e.Work? && e.key == k && e.fault == Fine && Lists(c, kind, copy.uid, e.listing)
             && (if kind == Service then pc.ListingServices? else pc.ListingChains?) && pc.copy == copy
    ensures ListCall(front + [e], k, kind, copy, |front|)
    ensures ListedBy(front + [e], k, kind, copy, |front|) == Project(Run(Init(), front), e.listing)
  {
    assert (front + [e])[..|front|] == front && (front + [e])[|front|] == e;
  }

  lemma LastPass(events: seq<Event>, k: Key)
    requires events != [] && BusyAt(events, k, |events|)
    ensures SamePass(events, k, |events| - 1)
  {
    forall m | |events| - 1 < m <= |events|
      ensures BusyAt(events, k, m)
    {
      assert m == |events|;
    }
  }

  lemma PassNow(front: seq<Event>, e: Event, k: Key)
    requires !WorkerOf(Run(Init(), front + [e]), k).Idle?
    ensures SamePass(front + [e], k, |front|)
  {
    BusyNow(front + [e], k);
    LastPass(front + [e], k);
  }

  lemma ListingIsRecorded(front: seq<Event>, e: Event, k: Key)
    requires e.Work? && e.key == k
    requires Evidenced(front, k, WorkerOf(Run(Init(), front), k))
    ensures Evidenced(front + [e], k, WorkerOf(Run(Init(), front + [e]), k))
  {
    var c := Run(Init(), front);
    var pc := WorkerOf(c, k);
    var next := WorkerOf(WorkStep(c, k, e.fault, e.listing), k);
    RunSnoc(Init(), front, e);
    OnlyListingLeadsOn(c, k, e.fault, e.listing);
    if next.ListingChains? {
      if next == pc {
        LongerHistory(front, e, k, pc);
      } else {
        CallNow(front, e, k, Service, pc.copy);
        PassNow(front, e, k);
        assert ServicesListed(front + [e], k, next.copy, next.seen, |front|);
      }
    } else if next.WritingStatus? {
      WritingIsRecorded(front, e, k, pc, next);
    }
  }

  lemma WritingIsRecorded(front: seq<Event>, e: Event, k: Key, pc: Pc, next: Pc)
    requires var c := Run(Init(), front);
             && e.Work? && e.key == k && e.fault == Fine && pc == WorkerOf(c, k)
             && pc.ListingChains? && next.WritingStatus? && Lists(c, Chain, pc.copy.uid, e.listing)
             && next.copy == pc.copy && next.seen == pc.seen + Project(c, e.listing)
    requires Evidenced(front, k, pc) && !WorkerOf(Run(Init(), front + [e]), k).Idle?
    ensures exists i, j :: BothListed(front + [e], k, next.copy, next.seen, i, j)
  {
    var i :| ServicesListed(front, k, pc.copy, pc.seen, i);
    LongerCall(front, e, k, Service, pc.copy, i);
    LongerPass(front, e, k, i);
    CallNow(front, e, k, Chain, pc.copy);
    assert BothListed(front + [e], k, next.copy, next.seen, i, |front|);
  }

  lemma {:induction false} EvidenceIsRecorded(events: seq<Event>, k: Key)
    ensures Evidenced(events, k, WorkerOf(Run(Init(), events), k))
  {
    if events != [] {
      var front, e := events[..|events| - 1], events[|events| - 1];
      assert events == front + [e];
      EvidenceIsRecorded(front, k);
      if e.Work? && e.key == k {
        ListingIsRecorded(front, e, k);
      } else {
        RunSnoc(Init(), front, e);
        OthersKeepWorker(Run(Init(), front), e, k);
        if !WorkerOf(Run(Init(), events), k).Idle? {
          LongerHistory(front, e, k, WorkerOf(Run(Init(), front), k));
        }
      }
    }
  }

  /** What a status write rests on: its pass made two list calls, services first, and its evidence is
      exactly what they returned. Hence it has a child of a kind exactly when, at the moment of the call,
      the child the pass had applied still carried the SFC's label. A child that was deleted, or that a
      namesake SFC took over, in between is not looked for. */
  lemma WriteRestsOnWhatWasListed(events: seq<Event>, e: Event)
    requires Step(Run(Init(), events), e).log != Run(Init(), events).log
    ensures var c, d := Run(Init(), events), Step(Run(Init(), events), e);
            && |d.log| == |c.log| + 1 && e.Work?
            && RestsOnItsCalls(events, e.key, d.log[|c.log|].copy, d.log[|c.log|].seen)
  {
    var c := Run(Init(), events);
    OneWriteLogged(c, e);
    EvidenceIsRecorded(events, e.key);
    CallsTell(events, e.key, WorkerOf(c, e.key).copy, WorkerOf(c, e.key).seen);
  }

  ghost predicate RestsOnItsCalls(events: seq<Event>, k: Key, copy: Sfc, seen: seq<Seen>) {
    && (exists i, j :: BothListed(events, k, copy, seen, i, j))
    && forall i, j | BothListed(events, k, copy, seen, i, j) ::
         && (HasKind(seen, Service) <==> StillOwn(events, k, Service, copy, i))
         && (HasKind(seen, Chain) <==> StillOwn(events, k, Chain, copy, j))
  }

  lemma CallsTell(events: seq<Event>, k: Key, copy: Sfc, seen: seq<Seen>)
    requires exists i, j :: BothListed(events, k, copy, seen, i, j)
    ensures RestsOnItsCalls(events, k, copy, seen)
  {
    forall i, j | BothListed(events, k, copy, seen, i, j)
      ensures HasKind(seen, Service) <==> StillOwn(events, k, Service, copy, i)
      ensures HasKind(seen, Chain) <==> StillOwn(events, k, Chain, copy, j)
    {
      CallTells(events, k, Service, copy, i);
      CallTells(events, k, Chain, copy, j);
      AddingChains(ListedBy(events, k, Service, copy, i), ListedBy(events, k, Chain, copy, j));
    }
  }

  /** Just before the i-th event the child of that kind, under the name SFC k gives it, carries its label. */
  ghost predicate StillOwn(events: seq<Event>, k: Key, kind: Kind, copy: Sfc, i: int) {
    0 <= i <= |events| && Labelled(Run(Init(), events[..i]), ChildOf(k, kind), kind, copy.uid)
  }

  lemma CallTells(events: seq<Event>, k: Key, kind: Kind, copy: Sfc, i: int)
    requires ListCall(events, k, kind, copy, i)
    ensures OnlyKind(ListedBy(events, k, kind, copy, i), kind)
    ensures HasKind(ListedBy(events, k, kind, copy, i), kind) <==> StillOwn(events, k, kind, copy, i)
  {
    var c := Run(Init(), events[..i]);
    EveryRunKeepsInv(events[..i]);
    assert PcOk(c, k, WorkerOf(c, k));
    ListingTells(c, k, kind, copy, events[i].listing);
  }

  lemma OneWriteLogged(c: Cluster, e: Event)
    requires Step(c, e).log != c.log
    ensures e.Work? && WorkerOf(c, e.key).WritingStatus?
    ensures var pc := WorkerOf(c, e.key);
            Step(c, e).log == c.log + [StatusWrite(pc.copy, TargetOf(pc.copy, pc.seen), pc.receipts, pc.seen)]
  {
    OnlyStatusWritesAreLogged(c, e);
    LoggedWrite(c, e.key, e.fault, e.listing);
  }

  lemma LoggedWrite(c: Cluster, k: Key, fault: Fault, listing: seq<ChildKey>)
    requires fault != RequestLost && WorkerOf(c, k).WritingStatus? && Current(c, k, WorkerOf(c, k).copy)
    ensures var pc := WorkerOf(c, k);
            WorkStep(c, k, fault, listing).log
            == c.log + [StatusWrite(pc.copy, TargetOf(pc.copy, pc.seen), pc.receipts, pc.seen)]
  {
  }

  // ---- Ready on one child --------------------------------------------------------------

  /** A child that is asked to go, and let go of, is gone; everything else stays. */
  lemma ChildGoes(c: Cluster, ck: ChildKey) returns (d: Cluster)
    requires Inv(c)
    ensures d == Step(Step(c, DeleteChild(ck)), FinalizeChild(ck)) && Inv(d)
    ensures ck !in d.children && SameElse(c, d, ck)
  {
    var marked := Step(c, DeleteChild(ck));
    StepKeepsInv(c, DeleteChild(ck));
    Marked(c, ck);
    StepKeepsInv(marked, FinalizeChild(ck));
    LetGo(marked, ck);
    d := Step(marked, FinalizeChild(ck));
  }

  ghost predicate SameElse(c: Cluster, d: Cluster, ck: ChildKey) {
    && d.sfcs == c.sfcs && d.workers == c.workers && d.log == c.log
    && forall other | other in c.children && other != ck ::
         other in d.children && d.children[other] == c.children[other]
  }

  lemma Marked(c: Cluster, ck: ChildKey)
    ensures var d := ChildStep(c, DeleteChild(ck));
            SameElse(c, d, ck) && (ck in d.children ==> d.children[ck].deleting)
  {
  }

  lemma LetGo(c: Cluster, ck: ChildKey)
    requires ck in c.children ==> c.children[ck].deleting
    ensures var d := ChildStep(c, FinalizeChild(ck)); SameElse(c, d, ck) && ck !in d.children
  {
  }

  lemma ServeNoChains(c: Cluster, k: Key, events: seq<Event>, s: Cluster) returns (more: seq<Event>)
    requires Served(c, k, events, s) && WorkerOf(s, k).ListingChains? && ChildOf(k, Chain) !in s.children
    requires var pc := WorkerOf(s, k); pc.copy.conditions != [TargetOf(pc.copy, pc.seen)]
    ensures var pc := WorkerOf(s, k);
            Served(c, k, more, Goto(s, k, WritingStatus(pc.copy, pc.receipts, pc.seen)))
  {
    var pc := WorkerOf(s, k);
    assert PcOk(s, k, pc);
    var listing := Listing(s, k, Chain, pc.copy.uid);
    assert listing == [] by {
      assert !Labelled(s, ChildOf(k, Chain), Chain, pc.copy.uid);
    }
    assert pc.seen + Project(s, listing) == pc.seen;
    EqualityGateOnTarget(pc.copy.conditions, TargetOf(pc.copy, pc.seen));
    more := Serve(c, k, events, s, listing);
  }

  lemma OneReady(c: Cluster, k: Key, copy: Sfc)
    requires Inv(c) && ReportedReady(c, ChildOf(k, Service))
    ensures TargetOf(copy, [SeenAt(c, ChildOf(k, Service))]) == AllReady(copy.generation)
  {
    assert ChildOk(c, ChildOf(k, Service));
    ReadyExactly(Statuses([SeenAt(c, ChildOf(k, Service))]), copy.generation);
  }

  /** The rest of a pass that finds its service Ready and its chain gone. */
  lemma WriteOnOneChild(c: Cluster, k: Key) returns (events: seq<Event>, d: Cluster)
    requires Inv(c) && k in c.sfcs && WorkerOf(c, k).ListingServices? && WorkerOf(c, k).copy == c.sfcs[k]
    requires c.sfcs[k].conditions == [] && AppliedAt(c, k, Service, c.sfcs[k])
    requires ReportedReady(c, ChildOf(k, Service)) && ChildOf(k, Chain) !in c.children
    ensures Served(c, k, events, d)
    ensures ChildOf(k, Chain) !in d.children && |d.log| == |c.log| + 1
    ensures var w := d.log[|c.log|];
            && w.target == AllReady(c.sfcs[k].generation) && w.copy.uid == c.sfcs[k].uid
            && ChildOf(k, Chain) in w.receipts && !HasKind(w.seen, Chain)
  {
    var copy, pc := c.sfcs[k], WorkerOf(c, k);
    assert PcOk(c, k, pc);
    var seen := [SeenAt(c, ChildOf(k, Service))];
    OneReady(c, k, copy);
    ServedNothing(c, k);
    events := ServeObserveServices(c, k, [], c);
    var c1 := Goto(c, k, ListingChains(copy, pc.receipts, seen));
    events := ServeNoChains(c, k, events, c1);
    events, d := ServeWrite(c, k, events, Goto(c1, k, WritingStatus(copy, pc.receipts, seen)));
  }

  /** An SFC whose status somebody has emptied; the adapter's worker has not noticed. */
  lemma EmptyStatus(c: Cluster, k: Key) returns (e: Event, d: Cluster)
    requires Inv(c) && k in c.sfcs && !c.sfcs[k].deleting && c.sfcs[k].finalizer && WorkerOf(c, k).Idle?
    ensures d == Step(c, e) && Inv(d) && k in d.sfcs && WorkerOf(d, k).Idle? && d.log == c.log
    ensures d.sfcs[k] == c.sfcs[k].(conditions := [], version := d.sfcs[k].version)
  {
    e := TouchSfc(k, c.sfcs[k].otherFinalizers, []);
    d := Step(c, e);
    StepKeepsInv(c, e);
  }

  /** From there on: the pass applies both children, DPF reports the service, the chain goes, and the pass
      finds the one it finds. */
  lemma ReadyOnOneFrom(c: Cluster, k: Key) returns (events: seq<Event>, d: Cluster)
    requires Inv(c) && k in c.sfcs && !c.sfcs[k].deleting && c.sfcs[k].finalizer && WorkerOf(c, k).Idle?
    requires c.sfcs[k].conditions == []
    ensures IsRun(c, events, d) && |d.log| == |c.log| + 1 && WroteOnOne(d, k, c.sfcs[k].uid, c.sfcs[k].generation)
  {
    var first, c1 := ApplyHalf(c, k);
    var svc, chain := ChildOf(k, Service), ChildOf(k, Chain);
    var report := ReportChild(svc, c1.children[svc].generation, "True");
    ReportWorks(c1, k, Service);
    var c2 := Step(c1, report);
    var c3 := ChildGoes(c2, chain);
    var last;
    last, d := WriteOnOneChild(c3, k);
    ServedIsRun(c, k, first, c1);
    ServedIsRun(c3, k, last, d);
    ThreeSteps(c1, report, DeleteChild(chain), FinalizeChild(chain));
    RunAppend(c, first, [report, DeleteChild(chain), FinalizeChild(chain)]);
    RunAppend(c, first + [report, DeleteChild(chain), FinalizeChild(chain)], last);
    events := first + [report, DeleteChild(chain), FinalizeChild(chain)] + last;
  }

  lemma ThreeSteps(c: Cluster, a: Event, b: Event, e: Event)
    ensures Run(c, [a, b, e]) == Step(Step(Step(c, a), b), e)
  {
    TwoSteps(c, a, b);
    RunSnoc(c, [a, b], e);
    assert [a, b] + [e] == [a, b, e];
  }

  /** The last status write is for the SFC with that UID and says Ready for that generation, although the
      chain its pass had applied is neither in its evidence nor in the cluster. */
  ghost predicate WroteOnOne(d: Cluster, k: Key, uid: Uid, generation: nat) {
    && ChildOf(k, Chain) !in d.children && d.log != []
    && var w := d.log[|d.log| - 1];
       && w.target == AllReady(generation) && w.copy.uid == uid
       && ChildOf(k, Chain) in w.receipts && !HasKind(w.seen, Chain)
  }

  /** Ready=True needs something observed, not one child of each kind: from every reachable state the
      adapter can be led to write Ready for a live SFC while one of the two children it applied in that
      very pass is missing. */
  lemma ReadyOnOneChild(history: seq<Event>, k: Key) returns (events: seq<Event>)
    requires var c := Run(Init(), history);
             k in c.sfcs && !c.sfcs[k].deleting && WorkerOf(c, k).Idle?
    ensures var c := Run(Init(), history);
            var d := Run(Init(), history + events);
            |d.log| == |c.log| + 1 && WroteOnOne(d, k, c.sfcs[k].uid, c.sfcs[k].generation)
  {
    EveryRunKeepsInv(history);
    var c := Run(Init(), history);
    var first, s := Adopt(c, k);
    ServedIsRun(c, k, first, s);
    var touch, t := EmptyStatus(s, k);
    RunSnoc(c, first, touch);
    var last, d := ReadyOnOneFrom(t, k);
    RunAppend(c, first + [touch], last);
    events := first + [touch] + last;
    RunAppend(Init(), history, events);
  }

  // ---- Namesakes -----------------------------------------------------------------------

  /** Two SFCs share their children exactly when they have the same name, whatever their namespaces. */
  lemma NamesakesShareChildren(k: Key, l: Key, kind: Kind, other: Kind)
    ensures ChildOf(k, kind) == ChildOf(l, other) <==> k.name == l.name && kind == other
  {
    var suffix := if kind == Service then "-svc" else "-chain";
    if ChildOf(k, kind) == ChildOf(l, other) {
      assert (k.name + suffix)[..|k.name|] == k.name && (l.name + suffix)[..|l.name|] == l.name;
    }
  }

  /** A namesake's Patch takes the child: the moment it is applied, the other SFC is left without any child
      of the kind, in every reachable state. */
  lemma NamesakeTakesChild(history: seq<Event>, k: Key, l: Key, fault: Fault)
    requires var c := Run(Init(), history);
             && k != l && k.name == l.name && l in c.sfcs && fault != RequestLost
             && (WorkerOf(c, k).ApplyingService? || WorkerOf(c, k).ApplyingChain?)
    ensures var c := Run(Init(), history);
            var d := Step(c, Work(k, fault, []));
            var kind := if WorkerOf(c, k).ApplyingService? then Service else Chain;
            && Labelled(d, ChildOf(l, kind), kind, WorkerOf(c, k).copy.uid)
            && l in d.sfcs && Disowned(d, d.sfcs[l].uid, kind)
  {
    EveryRunKeepsInv(history);
    var c := Run(Init(), history);
    var kind := if WorkerOf(c, k).ApplyingService? then Service else Chain;
    var d := Step(c, Work(k, fault, []));
    StepKeepsInv(c, Work(k, fault, []));
    assert PcOk(c, k, WorkerOf(c, k)) && SfcOk(c, l);
    NamesakesShareChildren(k, l, kind, kind);
    PatchTakes(c, k, fault, kind);
    forall ck | ck in d.children && ck.kind == kind
      ensures d.children[ck].owner != d.sfcs[l].uid
    {
      assert ChildOk(d, ck);
    }
  }

  lemma PatchTakes(c: Cluster, k: Key, fault: Fault, kind: Kind)
    requires fault != RequestLost
    requires if kind == Service then WorkerOf(c, k).ApplyingService? else WorkerOf(c, k).ApplyingChain?
    ensures var d := WorkStep(c, k, fault, []);
            && d.sfcs == c.sfcs && d.issued == c.issued
            && Labelled(d, ChildOf(k, kind), kind, WorkerOf(c, k).copy.uid)
  {
  }
}
