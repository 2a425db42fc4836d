/** The condition merge of the device reconciler: an upsert by type that keeps a transition time for
    as long as the status does not change. */
module ConditionMerge {

  datatype Condition = Condition(kind: string, status: string, reason: string, message: string,
                                 transition: int, observedGeneration: int)

  type Conditions = map<string, Condition>

  predicate DistinctKinds(s: seq<Condition>) {
    forall i, j | 0 <= i < j < |s| :: s[i].kind != s[j].kind
  }

  /** The last condition of each type in a list. */
  function ByKind(s: seq<Condition>): Conditions {
    if s == [] then map[] else ByKind(s[..|s| - 1])[s[|s| - 1].kind := s[|s| - 1]]
  }

  /** One update, given what the clock shows at that moment. */
  function Upserted(m: Conditions, u: Condition, now: int): Conditions {
    var since := if u.kind in m && m[u.kind].status == u.status then m[u.kind].transition else now;
    m[u.kind := u.(transition := since)]
  }

  function UpsertedAll(m: Conditions, updates: seq<Condition>, times: seq<int>): Conditions
    requires |updates| == |times|
  {
    if updates == [] then m
    else Upserted(UpsertedAll(m, updates[..|updates| - 1], times[..|times| - 1]), updates[|updates| - 1],
                  times[|times| - 1])
  }

  /** A list holds exactly the conditions of a map, each once, in any order. */
  ghost predicate Lists(out: seq<Condition>, m: Conditions) {
    && |out| == |m|
    && DistinctKinds(out)
    && forall c | c in out :: c.kind in m && m[c.kind] == c
  }

  ghost predicate KeyedByKind(m: Conditions) {
    forall t | t in m :: m[t].kind == t
  }

  lemma {:induction false} ByKindIsKeyed(s: seq<Condition>)
    ensures KeyedByKind(ByKind(s))
  {
    if s != [] {
      ByKindIsKeyed(s[..|s| - 1]);
    }
  }

  lemma {:induction false} UpsertsAreKeyed(m: Conditions, updates: seq<Condition>, times: seq<int>)
    requires KeyedByKind(m) && |updates| == |times|
    ensures KeyedByKind(UpsertedAll(m, updates, times))
  {
    if updates != [] {
      UpsertsAreKeyed(m, updates[..|updates| - 1], times[..|times| - 1]);
    }
  }

  method MergeConditions(existing: seq<Condition>, updates: seq<Condition>, times: seq<int>)
      returns (out: seq<Condition>)
    requires |updates| == |times|
    ensures Lists(out, UpsertedAll(ByKind(existing), updates, times))
  {
    var byType: Conditions := map[];
    for i := 0 to |existing|
      invariant byType == ByKind(existing[..i])
    {
      assert existing[..i + 1][..i] == existing[..i];
      byType := byType[existing[i].kind := existing[i]];
    }
    assert existing[..|existing|] == existing;
    for i := 0 to |updates|
      invariant byType == UpsertedAll(ByKind(existing), updates[..i], times[..i])
    {
      assert updates[..i + 1][..i] == updates[..i] && times[..i + 1][..i] == times[..i];
      var u := updates[i];
      if u.kind in byType && byType[u.kind].status == u.status {
        u := u.(transition := byType[u.kind].transition);
      } else {
        u := u.(transition := times[i]);
      }
      byType := byType[u.kind := u];
    }
    assert updates[..|updates|] == updates && times[..|times|] == times;
    ByKindIsKeyed(existing);
    UpsertsAreKeyed(ByKind(existing), updates, times);
    var todo := byType.Keys;
    out := [];
    while todo != {}
      invariant todo <= byType.Keys
      invariant |out| + |todo| == |byType.Keys|
      invariant forall c | c in out :: c.kind in byType && c.kind !in todo && byType[c.kind] == c
      invariant DistinctKinds(out)
      decreases todo
    {
      var t :| t in todo;
      todo := todo - {t};
      out := out + [byType[t]];
    }
  }

  lemma {:induction false} ByKindIsFrom(s: seq<Condition>)
    ensures forall t | t in ByKind(s) :: ByKind(s)[t] in s
  {
    if s != [] {
      ByKindIsFrom(s[..|s| - 1]);
      assert s == s[..|s| - 1] + [s[|s| - 1]];
    }
  }

  /** The i-th condition is the last of its type. */
  ghost predicate LastOfKind(s: seq<Condition>, i: int) {
    0 <= i < |s| && forall j | i < j < |s| :: s[j].kind != s[i].kind
  }

  /** Of a list with repeated types a merge reads the last of each. */
  lemma {:induction false} LastOfEachKindCounts(s: seq<Condition>, i: nat)
    requires LastOfKind(s, i)
    ensures s[i].kind in ByKind(s) && ByKind(s)[s[i].kind] == s[i]
  {
    if i < |s| - 1 {
      var front := s[..|s| - 1];
      assert LastOfKind(front, i);
      LastOfEachKindCounts(front, i);
    }
  }

  lemma LastIsNew(s: seq<Condition>)
    requires s != [] && DistinctKinds(s)
    ensures s[|s| - 1].kind !in ByKind(s[..|s| - 1])
  {
    var front, t := s[..|s| - 1], s[|s| - 1].kind;
    ByKindIsFrom(front);
    ByKindIsKeyed(front);
    assert forall i | 0 <= i < |front| :: front[i] == s[i] && s[i].kind != t;
  }

  lemma {:induction false} ByKindOfList(s: seq<Condition>)
    requires DistinctKinds(s)
    ensures forall i | 0 <= i < |s| :: s[i].kind in ByKind(s) && ByKind(s)[s[i].kind] == s[i]
    ensures |ByKind(s)| == |s|
  {
    if s != [] {
      var front := s[..|s| - 1];
      ByKindOfList(front);
      LastIsNew(s);
      assert forall i | 0 <= i < |front| :: front[i] == s[i];
    }
  }

  /** A list that holds the conditions of a map, in any order, merges as the map itself. */
  lemma OrderDoesNotMatter(out: seq<Condition>, m: Conditions)
    requires Lists(out, m) && KeyedByKind(m)
    ensures ByKind(out) == m
  {
    ByKindOfList(out);
    ByKindIsKeyed(out);
    ByKindIsFrom(out);
    assert ByKind(out).Keys <= m.Keys;
    SubsetOfSameSize(ByKind(out).Keys, m.Keys);
  }

  lemma SubsetOfSameSize(a: set<string>, b: set<string>)
    requires a <= b && |a| == |b|
    ensures a == b
  {
    assert b == a + (b - a);
    assert |b| == |a| + |b - a|;
  }

  class OpiDpuDevice {
    const generation: int
    var conditions: seq<Condition>

    constructor (generation: int)
      ensures this.generation == generation && conditions == []
    {
      this.generation := generation;
      conditions := [];
    }

    /** The status the device then carries, whatever order the merge produced. */
    method SetCondition(c: Condition, now: int, mergedAt: int)
      requires DistinctKinds(conditions)
      modifies this
      ensures DistinctKinds(conditions)
      ensures ByKind(conditions)
           == Upserted(ByKind(old(conditions)), c.(transition := now, observedGeneration := generation), mergedAt)
    {
      var stamped := c.(transition := now, observedGeneration := generation);
      var before := conditions;
      conditions := MergeConditions(before, [stamped], [mergedAt]);
      assert [stamped][..0] == [] && [mergedAt][..0] == [];
      assert UpsertedAll(ByKind(before), [], []) == ByKind(before);
      ByKindIsKeyed(before);
      UpsertsAreKeyed(ByKind(before), [stamped], [mergedAt]);
      OrderDoesNotMatter(conditions, UpsertedAll(ByKind(before), [stamped], [mergedAt]));
    }
  }

  // ---- Runs of merges ------------------------------------------------------------------

  datatype Merge = Merge(updates: seq<Condition>, times: seq<int>)

  /** Any lists a run of merges can leave behind: each merge may order its result as it likes. */
  ghost predicate Leaves(merges: seq<Merge>, out: seq<Condition>) {
    && (forall m | m in merges :: |m.updates| == |m.times|)
    && if merges == [] then out == []
       else
         var last := merges[|merges| - 1];
         exists before :: Leaves(merges[..|merges| - 1], before)
                          && Lists(out, UpsertedAll(ByKind(before), last.updates, last.times))
  }

  /** All updates of a run, and when each was merged. */
  function AllUpdates(merges: seq<Merge>): seq<Condition> {
    if merges == [] then [] else AllUpdates(merges[..|merges| - 1]) + merges[|merges| - 1].updates
  }

  function AllTimes(merges: seq<Merge>): seq<int> {
    if merges == [] then [] else AllTimes(merges[..|merges| - 1]) + merges[|merges| - 1].times
  }

  lemma {:induction false} UpsertsAppend(m: Conditions, a: seq<Condition>, s: seq<int>, b: seq<Condition>, t: seq<int>)
    requires |a| == |s| && |b| == |t|
    ensures UpsertedAll(m, a + b, s + t) == UpsertedAll(UpsertedAll(m, a, s), b, t)
    decreases |b|
  {
    if b == [] {
      assert a + b == a && s + t == s;
    } else {
      assert (a + b)[..|a + b| - 1] == a + b[..|b| - 1] && (s + t)[..|s + t| - 1] == s + t[..|t| - 1];
      UpsertsAppend(m, a, s, b[..|b| - 1], t[..|t| - 1]);
    }
  }

  /** However the merges order their results, a run leaves the upserts of all its updates in turn. */
  lemma {:induction false} RunIsOneUpsert(merges: seq<Merge>, out: seq<Condition>)
    requires Leaves(merges, out)
    ensures |AllUpdates(merges)| == |AllTimes(merges)|
    ensures Lists(out, UpsertedAll(map[], AllUpdates(merges), AllTimes(merges)))
  {
    if merges == [] {
      var none: Conditions := map[];
      assert |none| == 0;
    } else {
      var front, last := merges[..|merges| - 1], merges[|merges| - 1];
      var before :| Leaves(front, before) && Lists(out, UpsertedAll(ByKind(before), last.updates, last.times));
      RunIsOneUpsert(front, before);
      assert last in merges;
      UpsertsAreKeyed(map[], AllUpdates(front), AllTimes(front));
      OrderDoesNotMatter(before, UpsertedAll(map[], AllUpdates(front), AllTimes(front)));
      UpsertsAppend(map[], AllUpdates(front), AllTimes(front), last.updates, last.times);
    }
  }

  /** The i-th update began the unbroken stretch of its type's present status: every later update of
      the type has the same status, and the update of the type before it, if any, has another. */
  ghost predicate BeganStretch(updates: seq<Condition>, kind: string, i: int) {
    && 0 <= i < |updates| && updates[i].kind == kind
    && (forall j | i <= j < |updates| && updates[j].kind == kind :: updates[j].status == updates[i].status)
    && (forall j | PreviousOf(updates, kind, i, j) :: updates[j].status != updates[i].status)
  }

  ghost predicate PreviousOf(updates: seq<Condition>, kind: string, i: int, j: int) {
    0 <= j < i <= |updates| && updates[j].kind == kind && forall m | j < m < i :: updates[m].kind != kind
  }

  ghost predicate LatestOf(updates: seq<Condition>, kind: string, j: int) {
    PreviousOf(updates, kind, |updates|, j)
  }

  /** The map's entry for a type tells the stretch. */
  ghost predicate Tells(m: Conditions, updates: seq<Condition>, times: seq<int>, kind: string)
    requires |updates| == |times|
  {
    if kind in m then exists i, j :: TellsAt(m[kind], updates, times, kind, i, j)
    else forall i | 0 <= i < |updates| :: updates[i].kind != kind
  }

  ghost predicate TellsAt(c: Condition, updates: seq<Condition>, times: seq<int>, kind: string, i: int, j: int)
    requires |updates| == |times|
  {
    BeganStretch(updates, kind, i) && LatestOf(updates, kind, j) && c == updates[j].(transition := times[i])
  }

  lemma OtherTypeTells(c: Condition, front: seq<Condition>, past: seq<int>, u: Condition, now: int, kind: string,
                       i: int, j: int)
    requires |front| == |past| && TellsAt(c, front, past, kind, i, j) && u.kind != kind
    ensures TellsAt(c, front + [u], past + [now], kind, i, j)
  {
    SamePrevious(front, u, kind, i);
  }

  lemma SamePrevious(front: seq<Condition>, u: Condition, kind: string, i: int)
    requires i <= |front|
    ensures forall j :: PreviousOf(front, kind, i, j) <==> PreviousOf(front + [u], kind, i, j)
  {
    assert forall m | 0 <= m < |front| :: (front + [u])[m] == front[m];
  }

  lemma SameStatusTells(c: Condition, front: seq<Condition>, past: seq<int>, u: Condition, now: int, kind: string,
                        i: int, j: int)
    requires |front| == |past| && TellsAt(c, front, past, kind, i, j) && u.kind == kind && u.status == c.status
    ensures TellsAt(u.(transition := c.transition), front + [u], past + [now], kind, i, |front|)
  {
    SamePrevious(front, u, kind, i);
    assert front[j].status == front[i].status;
  }

  lemma NewStatusTells(front: seq<Condition>, past: seq<int>, u: Condition, now: int, kind: string)
    requires |front| == |past| && u.kind == kind
    requires forall j | LatestOf(front, kind, j) :: front[j].status != u.status
    ensures TellsAt(u.(transition := now), front + [u], past + [now], kind, |front|, |front|)
  {
    SamePrevious(front, u, kind, |front|);
  }

  lemma {:induction false} UpsertsTellStretches(updates: seq<Condition>, times: seq<int>, kind: string)
    requires |updates| == |times|
    ensures Tells(UpsertedAll(map[], updates, times), updates, times, kind)
  {
    if updates != [] {
      var n := |updates| - 1;
      var front, past, u, now := updates[..n], times[..n], updates[n], times[n];
      UpsertsTellStretches(front, past, kind);
      assert updates == front + [u] && times == past + [now];
      UpsertTells(UpsertedAll(map[], front, past), front, past, u, now, kind);
    }
  }

  /** One upsert, told by the stretches it continues or begins. */
  lemma UpsertTells(before: Conditions, front: seq<Condition>, past: seq<int>, u: Condition, now: int, kind: string)
    requires |front| == |past| && Tells(before, front, past, kind)
    ensures Tells(Upserted(before, u, now), front + [u], past + [now], kind)
  {
    if kind in before {
      var i, j :| TellsAt(before[kind], front, past, kind, i, j);
      if u.kind != kind {
        OtherTypeTells(before[kind], front, past, u, now, kind, i, j);
      } else if u.status == before[kind].status {
        SameStatusTells(before[kind], front, past, u, now, kind, i, j);
      } else {
        NewStatusTells(front, past, u, now, kind);
      }
    } else if u.kind == kind {
      NewStatusTells(front, past, u, now, kind);
    }
  }

  /** Over any run of merges from an empty list, in any order of the intermediate lists: types stay
      unique, a type is there exactly when some merge ever set it, each condition is the one set last,
      and its transition time is when the unbroken stretch of its present status began. */
  lemma TransitionTimesMeanStretches(merges: seq<Merge>, out: seq<Condition>, kind: string)
    requires Leaves(merges, out)
    ensures |AllUpdates(merges)| == |AllTimes(merges)| && DistinctKinds(out)
    ensures var updates := AllUpdates(merges);
            (exists c :: c in out && c.kind == kind) <==> exists i :: 0 <= i < |updates| && updates[i].kind == kind
    ensures forall c | c in out && c.kind == kind ::
              exists i, j :: TellsAt(c, AllUpdates(merges), AllTimes(merges), kind, i, j)
  {
    RunIsOneUpsert(merges, out);
    var updates, times := AllUpdates(merges), AllTimes(merges);
    var m := UpsertedAll(map[], updates, times);
    UpsertsAreKeyed(map[], updates, times);
    OrderDoesNotMatter(out, m);
    ByKindOfList(out);
    ByKindIsFrom(out);
    UpsertsTellStretches(updates, times, kind);
    if kind in m {
      assert m[kind] in out && m[kind].kind == kind;
      var i, j :| TellsAt(m[kind], updates, times, kind, i, j);
      assert updates[i].kind == kind;
    }
  }
}
