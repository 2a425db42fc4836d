/** What the SFC adapter keeps in every interleaving: no orphaned children, and no premature
    Ready. One inductive invariant over the workers' program counters carries both. */
module AdapterSafety {
  import opened AdapterGates
  import opened AdapterCluster

  // ---- The invariant -------------------------------------------------------------------

  /** A pass's copy names a UID issued for its own key, and is current whenever its version is. */
  ghost predicate CopyOk(c: Cluster, k: Key, copy: Sfc) {
    && copy.uid in c.issued && c.issued[copy.uid] == k
    && copy.version < c.clock
    && (Current(c, k, copy) ==> c.sfcs[k] == copy)
  }

  /** While a pass works on a live SFC, that SFC exists and holds the finalizer. */
  ghost predicate Pinned(c: Cluster, k: Key, copy: Sfc) {
    && CopyOk(c, k, copy)
    && k in c.sfcs && c.sfcs[k].uid == copy.uid && c.sfcs[k].finalizer
  }

  ghost predicate Disowned(c: Cluster, owner: Uid, kind: Kind) {
    forall ck | ck in c.children && ck.kind == kind :: c.children[ck].owner != owner
  }

  /** A child is still, or is a later version of, what the receipt records. */
  ghost predicate AtLeast(child: Child, r: Receipt) {
    child.uid == r.uid && child.generation >= r.generation
        && (child.generation == r.generation ==> child.spec == r.spec)
  }

  /** The spec of a child as its SFC asks for it: the image for the service, the UID to select by for the
      chain. */
  ghost predicate Translates(copy: Sfc, kind: Kind, spec: ChildSpec) {
    && (kind == Service ==> spec == Image(copy.image))
    && (kind == Chain ==> spec == Selector(copy.uid))
  }

  ghost predicate ReceiptOk(c: Cluster, k: Key, copy: Sfc, receipts: map<ChildKey, Receipt>, kind: Kind) {
    var ck := ChildOf(k, kind);
    && ck in receipts
    && Translates(copy, kind, receipts[ck].spec)
    && (ck in c.children && c.children[ck].owner == copy.uid ==> AtLeast(c.children[ck], receipts[ck]))
  }

  /** DPF's last report on the child, when it was Ready, is on record. */
  ghost predicate ReportOk(declared: set<(Uid, nat)>, child: Child) {
    child.ready == "True" ==> (child.uid, child.observed) in declared
  }

  ghost predicate SeenOk(c: Cluster, k: Key, copy: Sfc, receipts: map<ChildKey, Receipt>, s: Seen) {
    && s.key == ChildOf(k, s.key.kind)
    && s.key in receipts
    && Translates(copy, s.key.kind, receipts[s.key].spec)
    && AtLeast(s.child, receipts[s.key])
    && ReportOk(c.declared, s.child)
  }

  ghost predicate AllSeenOk(c: Cluster, k: Key, copy: Sfc, receipts: map<ChildKey, Receipt>, seen: seq<Seen>) {
    forall i | 0 <= i < |seen| :: SeenOk(c, k, copy, receipts, seen[i])
  }

  ghost predicate PcOk(c: Cluster, k: Key, pc: Pc) {
    match pc
    case Idle => true
    case AddingFinalizer(copy) => CopyOk(c, k, copy)
    case ApplyingService(copy) => Pinned(c, k, copy)
    case ApplyingChain(copy, receipts) => Pinned(c, k, copy) && ReceiptOk(c, k, copy, receipts, Service)
    case ListingServices(copy, receipts) =>
      Pinned(c, k, copy) && ReceiptOk(c, k, copy, receipts, Service) && ReceiptOk(c, k, copy, receipts, Chain)
    case ListingChains(copy, receipts, seen) =>
      Pinned(c, k, copy) && ReceiptOk(c, k, copy, receipts, Chain) && AllSeenOk(c, k, copy, receipts, seen)
    case WritingStatus(copy, receipts, seen) =>
      Pinned(c, k, copy) && AllSeenOk(c, k, copy, receipts, seen) && copy.conditions != [TargetOf(copy, seen)]
    case DoomedListingServices(copy) => CopyOk(c, k, copy)
    case DoomedDeletingServices(copy, todo, remaining) => CopyOk(c, k, copy) && remaining > 0
    case DoomedListingChains(copy, remaining) =>
      CopyOk(c, k, copy) && (remaining == 0 ==> Disowned(c, copy.uid, Service))
    case DoomedDeletingChains(copy, todo, remaining) => CopyOk(c, k, copy)
    case ReleasingFinalizer(copy) =>
      CopyOk(c, k, copy) && Disowned(c, copy.uid, Service) && Disowned(c, copy.uid, Chain)
  }

  /** The child's owner is a live SFC that holds the finalizer, and the child has the name that
      SFC's key gives it. */
  ghost predicate ChildOk(c: Cluster, ck: ChildKey) {
    ck in c.children ==>
      var child := c.children[ck];
      && child.owner in c.issued
      && (var k := c.issued[child.owner];
          && ck == ChildOf(k, ck.kind)
          && k in c.sfcs && c.sfcs[k].uid == child.owner && c.sfcs[k].finalizer)
      && ReportOk(c.declared, child)
      && child.generation > 0 && child.observed <= child.generation
  }

  ghost predicate SfcOk(c: Cluster, k: Key) {
    k in c.sfcs ==>
      c.sfcs[k].uid in c.issued && c.issued[c.sfcs[k].uid] == k && c.sfcs[k].version < c.clock
  }

  /** Ready=True was written only on the strength of reports that are on record. */
  ghost predicate WriteOk(declared: set<(Uid, nat)>, w: StatusWrite) {
    && w.target == TargetOf(w.copy, w.seen)
    && (forall s | s in w.seen :: IsApplied(w, s))
    && (w.target.status == "True" ==>
          && w.seen != []
          && forall s | s in w.seen :: Justified(declared, w, s))
  }

  /** The listed object is the very one the pass applied its SFC's translation to, by UID, at the spec
      applied or a later one. */
  ghost predicate IsApplied(w: StatusWrite, s: Seen) {
    && s.key in w.receipts
    && Translates(w.copy, s.key.kind, w.receipts[s.key].spec)
    && AtLeast(s.child, w.receipts[s.key])
  }

  /** Besides, DPF had declared that object Ready for a generation no older than the one listed. */
  ghost predicate Justified(declared: set<(Uid, nat)>, w: StatusWrite, s: Seen) {
    IsApplied(w, s) && exists g :: (s.child.uid, g) in declared && g >= s.child.generation
  }

  ghost predicate Inv(c: Cluster) {
    && (forall u | u in c.issued :: u < c.nextUid)
    && (forall k :: SfcOk(c, k))
    && (forall ck :: ChildOk(c, ck))
    && (forall k | k in c.workers :: PcOk(c, k, c.workers[k]))
    && (forall i | 0 <= i < |c.log| :: WriteOk(c.declared, c.log[i]))
  }

  // ---- What one actor leaves alone -----------------------------------------------------

  /** The view of worker k that no other actor's step may disturb. */
  ghost predicate Calm(c: Cluster, d: Cluster, k: Key) {
    && c.clock <= d.clock
    && (forall u | u in c.issued :: u in d.issued && d.issued[u] == c.issued[u])
    && c.declared <= d.declared
    && (k in d.sfcs ==> (k in c.sfcs && d.sfcs[k] == c.sfcs[k]) || d.sfcs[k].version >= c.clock)
    && (k in c.sfcs && c.sfcs[k].finalizer ==> k in d.sfcs && d.sfcs[k].finalizer && d.sfcs[k].uid == c.sfcs[k].uid)
    && forall ck :: CalmChild(c, d, k, ck)
  }

  /** A child owned by k's SFC was k's before, and is the same object, not older. */
  ghost predicate CalmChild(c: Cluster, d: Cluster, k: Key, ck: ChildKey) {
    (ck in d.children && d.children[ck].owner in c.issued && c.issued[d.children[ck].owner] == k) ==>
      && ck in c.children
      && c.children[ck].owner == d.children[ck].owner
      && AtLeast(d.children[ck], ReceiptFor(c, ck))
  }

  lemma CalmKeepsPc(c: Cluster, d: Cluster, k: Key, pc: Pc)
    requires Calm(c, d, k) && PcOk(c, k, pc)
    ensures PcOk(d, k, pc)
  {
    if !pc.Idle? {
      var copy := pc.copy;
      assert CopyOk(d, k, copy);
      CalmKeepsDisowned(c, d, k, copy.uid);
      if pc.ApplyingChain? || pc.ListingServices? || pc.ListingChains? {
        forall kind | ReceiptOk(c, k, copy, pc.receipts, kind)
          ensures ReceiptOk(d, k, copy, pc.receipts, kind)
        {
          assert CalmChild(c, d, k, ChildOf(k, kind));
        }
      }
      if pc.ListingChains? || pc.WritingStatus? {
        forall i | 0 <= i < |pc.seen|
          ensures SeenOk(d, k, copy, pc.receipts, pc.seen[i])
        {
          assert SeenOk(c, k, copy, pc.receipts, pc.seen[i]);
        }
      }
    }
  }

  lemma CalmKeepsDisowned(c: Cluster, d: Cluster, k: Key, owner: Uid)
    requires Calm(c, d, k) && owner in c.issued && c.issued[owner] == k
    ensures forall kind | Disowned(c, owner, kind) :: Disowned(d, owner, kind)
  {
    forall kind, ck | Disowned(c, owner, kind) && ck in d.children && ck.kind == kind
      ensures d.children[ck].owner != owner
    {
      assert CalmChild(c, d, k, ck);
    }
  }

  /** A step of anyone but worker k, calm for k, keeps k's part of the invariant. */
  lemma CalmKeepsOthers(c: Cluster, d: Cluster, except: set<Key>)
    requires Inv(c)
    requires forall k | k in d.workers && k !in except ::
               k in c.workers && d.workers[k] == c.workers[k] && Calm(c, d, k)
    ensures forall k | k in d.workers && k !in except :: PcOk(d, k, d.workers[k])
  {
    forall k | k in d.workers && k !in except
      ensures PcOk(d, k, d.workers[k])
    {
      CalmKeepsPc(c, d, k, c.workers[k]);
    }
  }

  lemma GrowingRecordKeepsWrite(declared: set<(Uid, nat)>, more: set<(Uid, nat)>, w: StatusWrite)
    requires declared <= more && WriteOk(declared, w)
    ensures WriteOk(more, w)
  {
    if w.target.status == "True" {
      forall s | s in w.seen
        ensures Justified(more, w, s)
      {
        assert Justified(declared, w, s);
      }
    }
  }

  // ---- Users, the API server and DPF ---------------------------------------------------

  lemma SfcStepIsCalm(c: Cluster, e: Event, k: Key)
    requires Inv(c)
    requires e.CreateSfc? || e.EditSfc? || e.TouchSfc? || e.DeleteSfc? || e.RemoveSfc?
    ensures Calm(c, SfcStep(c, e), k)
  {
    var d := SfcStep(c, e);
    assert SfcOk(c, k) && SfcOk(c, e.key);
    forall ck
      ensures CalmChild(c, d, k, ck)
    {
      assert d.children == c.children;
    }
  }

  lemma SfcStepKeepsChild(c: Cluster, e: Event, ck: ChildKey)
    requires Inv(c)
    requires e.CreateSfc? || e.EditSfc? || e.TouchSfc? || e.DeleteSfc? || e.RemoveSfc?
    ensures ChildOk(SfcStep(c, e), ck)
  {
    assert ChildOk(c, ck);
  }

  lemma SfcStepKeepsSfc(c: Cluster, e: Event, k: Key)
    requires Inv(c)
    requires e.CreateSfc? || e.EditSfc? || e.TouchSfc? || e.DeleteSfc? || e.RemoveSfc?
    ensures SfcOk(SfcStep(c, e), k)
  {
    assert SfcOk(c, k) && SfcOk(c, e.key);
  }

  lemma SfcStepKeepsInv(c: Cluster, e: Event)
    requires Inv(c)
    requires e.CreateSfc? || e.EditSfc? || e.TouchSfc? || e.DeleteSfc? || e.RemoveSfc?
    ensures Inv(SfcStep(c, e))
  {
    var d := SfcStep(c, e);
    assert d.workers == c.workers && d.log == c.log && d.declared == c.declared;
    forall k
      ensures SfcOk(d, k) && Calm(c, d, k)
    {
      SfcStepKeepsSfc(c, e, k);
      SfcStepIsCalm(c, e, k);
    }
    forall ck
      ensures ChildOk(d, ck)
    {
      SfcStepKeepsChild(c, e, ck);
    }
    CalmKeepsOthers(c, d, {});
  }

  lemma ChildStepIsCalm(c: Cluster, e: Event, k: Key)
    requires Inv(c)
    requires e.EditChild? || e.DeleteChild? || e.HoldChild? || e.FinalizeChild? || e.ReportChild?
    ensures Calm(c, ChildStep(c, e), k)
  {
    var d := ChildStep(c, e);
    forall ck
      ensures CalmChild(c, d, k, ck)
    {
    }
  }

  lemma ChildStepKeepsChild(c: Cluster, e: Event, ck: ChildKey)
    requires Inv(c)
    requires e.EditChild? || e.DeleteChild? || e.HoldChild? || e.FinalizeChild? || e.ReportChild?
    ensures ChildOk(ChildStep(c, e), ck)
  {
    assert ChildOk(c, ck);
    assert ChildOk(c, e.child);
  }

  lemma ChildStepFrame(c: Cluster, e: Event)
    requires e.EditChild? || e.DeleteChild? || e.HoldChild? || e.FinalizeChild? || e.ReportChild?
    ensures var d := ChildStep(c, e);
            && d.sfcs == c.sfcs && d.workers == c.workers && d.log == c.log && d.issued == c.issued
            && d.nextUid == c.nextUid && d.clock == c.clock && c.declared <= d.declared
  {
  }

  lemma ChildStepKeepsInv(c: Cluster, e: Event)
    requires Inv(c)
    requires e.EditChild? || e.DeleteChild? || e.HoldChild? || e.FinalizeChild? || e.ReportChild?
    ensures Inv(ChildStep(c, e))
  {
    var d := ChildStep(c, e);
    ChildStepFrame(c, e);
    forall k
      ensures SfcOk(d, k) && Calm(c, d, k)
    {
      assert SfcOk(c, k);
      ChildStepIsCalm(c, e, k);
    }
    forall ck
      ensures ChildOk(d, ck)
    {
      ChildStepKeepsChild(c, e, ck);
    }
    CalmKeepsOthers(c, d, {});
    forall i | 0 <= i < |d.log|
      ensures WriteOk(d.declared, d.log[i])
    {
      GrowingRecordKeepsWrite(c.declared, d.declared, c.log[i]);
    }
  }

  // ---- The adapter ---------------------------------------------------------------------

  /** Steps of a worker that touch only its own program counter. */
  lemma GotoKeepsInv(c: Cluster, k: Key, pc: Pc)
    requires Inv(c) && PcOk(c, k, pc)
    ensures Inv(Goto(c, k, pc))
  {
    var d := Goto(c, k, pc);
    forall k'
      ensures SfcOk(d, k') && Calm(c, d, k')
    {
      assert SfcOk(c, k');
    }
    forall ck
      ensures ChildOk(d, ck)
    {
      assert ChildOk(c, ck);
    }
    CalmKeepsOthers(c, d, {k});
    CalmKeepsPc(c, d, k, pc);
  }

  /** An update of k's own SFC object by its worker. */
  lemma PutKeepsInv(c: Cluster, k: Key, s: Sfc, log: seq<StatusWrite>)
    requires Inv(c) && k in c.sfcs && s.uid == c.sfcs[k].uid
    requires s.finalizer || (Disowned(c, s.uid, Service) && Disowned(c, s.uid, Chain))
    requires forall i | 0 <= i < |log| :: WriteOk(c.declared, log[i])
    ensures Inv(Goto(PutSfc(c, k, s).(log := log), k, Idle))
  {
    var d := Goto(PutSfc(c, k, s).(log := log), k, Idle);
    assert SfcOk(c, k);
    forall k'
      ensures SfcOk(d, k') && (k' != k ==> Calm(c, d, k'))
    {
      assert SfcOk(c, k');
    }
    forall ck
      ensures ChildOk(d, ck)
    {
      assert ChildOk(c, ck);
      assert ck.kind == Service || ck.kind == Chain;
    }
    CalmKeepsOthers(c, d, {k});
  }

  /** A Patch by worker k: nobody else's children are touched. */
  lemma PatchKeepsInv(c: Cluster, k: Key, kind: Kind, copy: Sfc)
    requires Inv(c) && Pinned(c, k, copy)
    ensures var d := Patch(c, ChildOf(k, kind), copy.uid, DesiredSpec(copy, kind));
            Inv(Goto(d, k, Idle)) && Pinned(d, k, copy)
  {
    var ck := ChildOf(k, kind);
    var d := Patch(c, ck, copy.uid, DesiredSpec(copy, kind));
    var idle := Goto(d, k, Idle);
    assert ChildOk(c, ck);
    forall k'
      ensures SfcOk(idle, k')
    {
      assert SfcOk(c, k');
    }
    forall ck'
      ensures ChildOk(idle, ck') && (forall k' | k' != k :: CalmChild(c, idle, k', ck'))
    {
      assert ChildOk(c, ck');
    }
    CalmKeepsOthers(c, idle, {k});
  }

  /** The receipt of a Patch is sound, and the receipts before it stay so. */
  lemma PatchGivesReceipt(c: Cluster, k: Key, kind: Kind, copy: Sfc, receipts: map<ChildKey, Receipt>)
    requires Inv(c) && Pinned(c, k, copy)
    ensures var ck := ChildOf(k, kind);
            var d := Patch(c, ck, copy.uid, DesiredSpec(copy, kind));
            && ck in d.children && ReceiptOk(d, k, copy, receipts[ck := ReceiptFor(d, ck)], kind)
            && (forall other | other != kind && ReceiptOk(c, k, copy, receipts, other) ::
                  ReceiptOk(d, k, copy, receipts[ck := ReceiptFor(d, ck)], other))
  {
  }

  /** A Delete by name, whoever's child it turns out to be. */
  lemma RemoveKeepsInv(c: Cluster, ck: ChildKey)
    requires Inv(c)
    ensures Inv(Remove(c, ck))
    ensures forall k :: Calm(c, Remove(c, ck), k)
  {
    assert Remove(c, ck) == ChildStep(c, DeleteChild(ck));
    ChildStepKeepsInv(c, DeleteChild(ck));
    assert ChildOk(c, ck);
  }

  /** Whatever a list by owner returns during a live pass is the very object the pass applied. */
  lemma ListingIsApplied(c: Cluster, k: Key, kind: Kind, copy: Sfc, receipts: map<ChildKey, Receipt>,
                         listing: seq<ChildKey>)
    requires Inv(c) && Pinned(c, k, copy) && ReceiptOk(c, k, copy, receipts, kind)
    requires Lists(c, kind, copy.uid, listing)
    ensures AllSeenOk(c, k, copy, receipts, Project(c, listing))
  {
    var seen := Project(c, listing);
    forall i | 0 <= i < |seen|
      ensures SeenOk(c, k, copy, receipts, seen[i])
    {
      assert listing[i] in listing;
      assert ChildOk(c, listing[i]);
    }
  }

  /** The evidence of a pass justifies its verdict. */
  lemma EvidenceJustifies(c: Cluster, k: Key, w: StatusWrite)
    requires AllSeenOk(c, k, w.copy, w.receipts, w.seen) && w.target == TargetOf(w.copy, w.seen)
    ensures WriteOk(c.declared, w)
  {
    var statuses := Statuses(w.seen);
    ReadyExactly(statuses, w.copy.generation);
    if w.target.status == "True" {
      forall s | s in w.seen
        ensures Justified(c.declared, w, s)
      {
        var i :| 0 <= i < |w.seen| && w.seen[i] == s;
        assert SeenOk(c, k, w.copy, w.receipts, w.seen[i]);
        assert statuses[i] in statuses;
        assert (s.child.uid, s.child.observed) in c.declared;
      }
    }
  }

  lemma ApplyingKeepsInv(c: Cluster, k: Key, fault: Fault, listing: seq<ChildKey>)
    requires Inv(c) && fault != RequestLost
    requires WorkerOf(c, k).ApplyingService? || WorkerOf(c, k).ApplyingChain?
    ensures Inv(WorkStep(c, k, fault, listing))
  {
    var pc := WorkerOf(c, k);
    assert PcOk(c, k, pc);
    var d := WorkStep(c, k, fault, listing);
    if pc.ApplyingService? {
      PatchKeepsInv(c, k, Service, pc.copy);
      PatchGivesReceipt(c, k, Service, pc.copy, map[]);
      PatchThenGoto(c, k, Service, d);
    } else {
      PatchKeepsInv(c, k, Chain, pc.copy);
      PatchGivesReceipt(c, k, Chain, pc.copy, pc.receipts);
      PatchThenGoto(c, k, Chain, d);
    }
  }

  lemma ListingKeepsInv(c: Cluster, k: Key, fault: Fault, listing: seq<ChildKey>)
    requires Inv(c) && fault != RequestLost
    requires WorkerOf(c, k).ListingServices? || WorkerOf(c, k).ListingChains?
    ensures Inv(WorkStep(c, k, fault, listing))
  {
    var pc := WorkerOf(c, k);
    var copy := pc.copy;
    assert PcOk(c, k, pc);
    GotoKeepsInv(c, k, Idle);
    if pc.ListingServices? && Lists(c, Service, copy.uid, listing) {
      ListingIsApplied(c, k, Service, copy, pc.receipts, listing);
      GotoKeepsInv(c, k, ListingChains(copy, pc.receipts, Project(c, listing)));
    } else if pc.ListingChains? && Lists(c, Chain, copy.uid, listing) {
      ListingIsApplied(c, k, Chain, copy, pc.receipts, listing);
      var all := pc.seen + Project(c, listing);
      EqualityGateOnTarget(copy.conditions, TargetOf(copy, all));
      if !SemanticallyEqual(copy.conditions, [TargetOf(copy, all)]) {
        GotoKeepsInv(c, k, WritingStatus(copy, pc.receipts, all));
      }
    }
  }

  lemma WritingKeepsInv(c: Cluster, k: Key, fault: Fault, listing: seq<ChildKey>)
    requires Inv(c) && fault != RequestLost && WorkerOf(c, k).WritingStatus?
    ensures Inv(WorkStep(c, k, fault, listing))
  {
    var pc := WorkerOf(c, k);
    var copy := pc.copy;
    assert PcOk(c, k, pc);
    GotoKeepsInv(c, k, Idle);
    if Current(c, k, copy) {
      var w := StatusWrite(copy, TargetOf(copy, pc.seen), pc.receipts, pc.seen);
      EvidenceJustifies(c, k, w);
      PutKeepsInv(c, k, copy.(conditions := [w.target]), c.log + [w]);
    }
  }

  /** After a Patch the worker may move to any program counter that holds there. */
  lemma PatchThenGoto(c: Cluster, k: Key, kind: Kind, d: Cluster)
    requires WorkerOf(c, k).ApplyingService? || WorkerOf(c, k).ApplyingChain?
    requires var copy := WorkerOf(c, k).copy;
             var p := Patch(c, ChildOf(k, kind), copy.uid, DesiredSpec(copy, kind));
             Inv(Goto(p, k, Idle)) && k in d.workers && d == Goto(p, k, d.workers[k]) && PcOk(p, k, d.workers[k])
    ensures Inv(d)
  {
    var copy := WorkerOf(c, k).copy;
    var idle := Goto(Patch(c, ChildOf(k, kind), copy.uid, DesiredSpec(copy, kind)), k, Idle);
    assert d == Goto(idle, k, d.workers[k]);
    SamePc(idle, d, k, d.workers[k]);
    GotoKeepsInv(idle, k, d.workers[k]);
  }

  /** Program counters do not matter to what a program counter promises. */
  lemma SamePc(c: Cluster, d: Cluster, k: Key, pc: Pc)
    requires c.(workers := map[]) == d.(workers := map[])
    ensures PcOk(c, k, pc) == PcOk(d, k, pc)
  {
    if pc.ListingChains? || pc.WritingStatus? {
      assert forall s :: SeenOk(c, k, pc.copy, pc.receipts, s) == SeenOk(d, k, pc.copy, pc.receipts, s);
    }
  }

  lemma DoomedPassKeepsInv(c: Cluster, k: Key, fault: Fault, listing: seq<ChildKey>)
    requires Inv(c) && fault != RequestLost
    requires Doomed(WorkerOf(c, k))
    ensures Inv(WorkStep(c, k, fault, listing))
  {
    var pc := WorkerOf(c, k);
    var copy := pc.copy;
    assert PcOk(c, k, pc);
    var d := WorkStep(c, k, fault, listing);
    GotoKeepsInv(c, k, Idle);
    match pc
    case DoomedListingServices(_) =>
      if Lists(c, Service, copy.uid, listing) && fault == Fine {
        EmptyListingDisowns(c, Service, copy.uid, listing);
        GotoKeepsInv(c, k, d.workers[k]);
      }
    case DoomedDeletingServices(_, todo, remaining) =>
      if todo == [] {
        GotoKeepsInv(c, k, DoomedListingChains(copy, remaining));
      } else {
        RemoveThenGoto(c, k, todo[0], d.workers[k]);
      }
    case DoomedListingChains(_, remaining) =>
      if Lists(c, Chain, copy.uid, listing) && fault == Fine {
        EmptyListingDisowns(c, Chain, copy.uid, listing);
        GotoKeepsInv(c, k, d.workers[k]);
      }
    case DoomedDeletingChains(_, todo, remaining) =>
      if todo != [] {
        RemoveThenGoto(c, k, todo[0], d.workers[k]);
      }
    case ReleasingFinalizer(_) =>
      if Current(c, k, copy) {
        PutKeepsInv(c, k, copy.(finalizer := false), c.log);
      }
  }

  lemma EmptyListingDisowns(c: Cluster, kind: Kind, owner: Uid, listing: seq<ChildKey>)
    requires Lists(c, kind, owner, listing)
    ensures listing == [] <==> Disowned(c, owner, kind)
  {
    if listing == [] {
      forall ck | ck in c.children && ck.kind == kind
        ensures c.children[ck].owner != owner
      {
        assert !(ck in listing);
      }
    } else {
      assert listing[0] in listing;
    }
  }

  lemma RemoveThenGoto(c: Cluster, k: Key, ck: ChildKey, pc: Pc)
    requires Inv(c) && PcOk(c, k, pc)
    ensures Inv(Goto(Remove(c, ck), k, pc))
  {
    RemoveKeepsInv(c, ck);
    CalmKeepsPc(c, Remove(c, ck), k, pc);
    GotoKeepsInv(Remove(c, ck), k, pc);
  }

  lemma WorkKeepsInv(c: Cluster, k: Key, fault: Fault, listing: seq<ChildKey>)
    requires Inv(c)
    ensures Inv(WorkStep(c, k, fault, listing))
  {
    var pc := WorkerOf(c, k);
    GotoKeepsInv(c, k, Idle);
    if fault != RequestLost {
      assert PcOk(c, k, pc);
      match pc
      case Idle =>
        assert SfcOk(c, k);
        GotoKeepsInv(c, k, StartPass(c, k));
      case AddingFinalizer(copy) =>
        if Current(c, k, copy) {
          PutKeepsInv(c, k, copy.(finalizer := true), c.log);
        }
      case ApplyingService(_) => ApplyingKeepsInv(c, k, fault, listing);
      case ApplyingChain(_, _) => ApplyingKeepsInv(c, k, fault, listing);
      case ListingServices(_, _) => ListingKeepsInv(c, k, fault, listing);
      case ListingChains(_, _, _) => ListingKeepsInv(c, k, fault, listing);
      case WritingStatus(_, _, _) => WritingKeepsInv(c, k, fault, listing);
      case DoomedListingServices(_) => DoomedPassKeepsInv(c, k, fault, listing);
      case DoomedDeletingServices(_, _, _) => DoomedPassKeepsInv(c, k, fault, listing);
      case DoomedListingChains(_, _) => DoomedPassKeepsInv(c, k, fault, listing);
      case DoomedDeletingChains(_, _, _) => DoomedPassKeepsInv(c, k, fault, listing);
      case ReleasingFinalizer(_) => DoomedPassKeepsInv(c, k, fault, listing);
    }
  }

  lemma StepKeepsInv(c: Cluster, e: Event)
    requires Inv(c)
    ensures Inv(Step(c, e))
  {
    if e.Work? {
      WorkKeepsInv(c, e.key, e.fault, e.listing);
    } else if e.RestartAdapter? {
      var d := Step(c, e);
      forall k
        ensures SfcOk(d, k)
      {
        assert SfcOk(c, k);
      }
      forall ck
        ensures ChildOk(d, ck)
      {
        assert ChildOk(c, ck);
      }
    } else if e.CreateSfc? || e.EditSfc? || e.TouchSfc? || e.DeleteSfc? || e.RemoveSfc? {
      SfcStepKeepsInv(c, e);
    } else {
      ChildStepKeepsInv(c, e);
    }
  }

  lemma {:induction false} EveryRunKeepsInv(events: seq<Event>)
    ensures Inv(Run(Init(), events))
  {
    if events != [] {
      EveryRunKeepsInv(events[..|events| - 1]);
      StepKeepsInv(Run(Init(), events[..|events| - 1]), events[|events| - 1]);
    }
  }

  // ---- The theorems --------------------------------------------------------------------

  /** No orphans: in every reachable state, whatever the interleaving, a child labelled with a
      UID belongs to an SFC that has that UID, still exists and still holds the finalizer. */
  lemma NoOrphans(events: seq<Event>, ck: ChildKey)
    requires ck in Run(Init(), events).children
    ensures var c := Run(Init(), events);
            exists k :: k in c.sfcs && c.sfcs[k].uid == c.children[ck].owner && c.sfcs[k].finalizer
                        && ck == ChildOf(k, ck.kind)
  {
    EveryRunKeepsInv(events);
    assert ChildOk(Run(Init(), events), ck);
  }

  /** No premature Ready: every Ready=True the adapter ever wrote was for the generation of the
      SFC the pass had read; it rested on at least one child, and each child the pass listed is the
      object that pass applied and had by then been declared Ready by DPF for the spec that same pass
      applied, or for a later one. */
  lemma NoPrematureReady(events: seq<Event>, i: nat)
    requires i < |Run(Init(), events).log|
    requires Run(Init(), events).log[i].target.status == "True"
    ensures var c := Run(Init(), events);
            var w := c.log[i];
            && w.target == AllReady(w.copy.generation)
            && w.seen != []
            && forall s | s in w.seen :: Justified(c.declared, w, s)
  {
    EveryRunKeepsInv(events);
    var w := Run(Init(), events).log[i];
    assert WriteOk(Run(Init(), events).declared, w);
    ReadyExactly(Statuses(w.seen), w.copy.generation);
  }

  /** What a write rests on is what its own pass applied, whatever the verdict: every listed service was given
      the image of the SFC the pass had read, and every listed chain its UID. */
  lemma EvidenceCarriesTheSpec(events: seq<Event>, i: nat, s: Seen)
    requires i < |Run(Init(), events).log| && s in Run(Init(), events).log[i].seen
    ensures var w := Run(Init(), events).log[i];
            && s.key in w.receipts && s.child.uid == w.receipts[s.key].uid
            && (s.key.kind == Service ==> w.receipts[s.key].spec == Image(w.copy.image))
            && (s.key.kind == Chain ==> w.receipts[s.key].spec == ChildSpec.Selector(w.copy.uid))
            && s.child.generation >= w.receipts[s.key].generation
            && (s.child.generation == w.receipts[s.key].generation ==> s.child.spec == w.receipts[s.key].spec)
  {
    EveryRunKeepsInv(events);
    var w := Run(Init(), events).log[i];
    assert WriteOk(Run(Init(), events).declared, w);
    assert IsApplied(w, s);
  }

  /** What one Patch of a pass leaves behind: the child of that name carries the label and the translation of
      the SFC the pass had read, its generation has moved exactly if its spec has, and nothing else in the
      cluster of children has changed. */
  lemma PatchApplies(c: Cluster, k: Key, fault: Fault)
    requires fault != RequestLost && (WorkerOf(c, k).ApplyingService? || WorkerOf(c, k).ApplyingChain?)
    ensures var copy := WorkerOf(c, k).copy;
            var d := Step(c, Work(k, fault, []));
            var ck := if WorkerOf(c, k).ApplyingService? then ChildKey(Service, k.name + "-svc")
                      else ChildKey(Chain, k.name + "-chain");
            && ck in d.children && d.children[ck].owner == copy.uid
            && d.children[ck].spec == (if ck.kind == Service then Image(copy.image) else ChildSpec.Selector(copy.uid))
            && (ck in c.children ==> d.children[ck] == c.children[ck].(owner := copy.uid, spec := d.children[ck].spec,
                  generation := if d.children[ck].spec == c.children[ck].spec then c.children[ck].generation
                                else c.children[ck].generation + 1))
            && (ck !in c.children ==> d.children[ck].generation == 1 && d.children[ck].uid == c.nextUid)
            && d.children - {ck} == c.children - {ck} && d.sfcs == c.sfcs
  {
  }

  lemma OthersLogNothing(c: Cluster, e: Event)
    requires !e.Work?
    ensures Step(c, e).log == c.log
  {
  }

  ghost predicate Doomed(pc: Pc) {
    || pc.DoomedListingServices? || pc.DoomedDeletingServices? || pc.DoomedListingChains?
    || pc.DoomedDeletingChains? || pc.ReleasingFinalizer?
  }

  lemma DoomedCallsLogNothing(c: Cluster, k: Key, fault: Fault, listing: seq<ChildKey>)
    requires Doomed(WorkerOf(c, k))
    ensures WorkStep(c, k, fault, listing).log == c.log
  {
  }

  lemma OtherCallsLogNothing(c: Cluster, k: Key, fault: Fault, listing: seq<ChildKey>)
    requires !WorkerOf(c, k).WritingStatus?
    ensures WorkStep(c, k, fault, listing).log == c.log
  {
    if Doomed(WorkerOf(c, k)) {
      DoomedCallsLogNothing(c, k, fault, listing);
    } else {
      LiveCallsLogNothing(c, k, fault, listing);
    }
  }

  lemma LiveCallsLogNothing(c: Cluster, k: Key, fault: Fault, listing: seq<ChildKey>)
    requires !WorkerOf(c, k).WritingStatus? && !Doomed(WorkerOf(c, k))
    ensures WorkStep(c, k, fault, listing).log == c.log
  {
  }

  lemma OnlyStatusWritesAreLogged(c: Cluster, e: Event)
    requires Step(c, e).log != c.log
    ensures e.Work? && e.fault != RequestLost && WorkerOf(c, e.key).WritingStatus?
            && Current(c, e.key, WorkerOf(c, e.key).copy)
  {
    if !e.Work? {
      OthersLogNothing(c, e);
    } else if !WorkerOf(c, e.key).WritingStatus? {
      OtherCallsLogNothing(c, e.key, e.fault, e.listing);
    }
  }

  /** At the moment of a status write the pass's copy is the SFC itself: the generation the
      condition speaks for is the generation the object has, and the write changes the status. */
  lemma WriteSpeaksForTheCurrentSpec(events: seq<Event>, e: Event)
    requires Step(Run(Init(), events), e).log != Run(Init(), events).log
    ensures var c := Run(Init(), events);
            var d := Step(c, e);
            && e.Work? && e.key in c.sfcs && e.key in d.sfcs
            && |d.log| == |c.log| + 1 && d.log[..|c.log|] == c.log
            && (var w := d.log[|c.log|];
                && w.copy == c.sfcs[e.key]
                && d.sfcs[e.key].conditions == [w.target] && c.sfcs[e.key].conditions != [w.target]
                && d.sfcs[e.key].generation == w.target.observedGeneration)
  {
    EveryRunKeepsInv(events);
    var c := Run(Init(), events);
    OnlyStatusWritesAreLogged(c, e);
    var pc := WorkerOf(c, e.key);
    assert PcOk(c, e.key, pc);
    ReadyExactly(Statuses(pc.seen), pc.copy.generation);
  }
}
