/** The decision logic of the SFC adapter: the ObservedGeneration gate, the Equality gate and
    the reading and writing of conditions on an unstructured object. */
module AdapterGates {
  import opened Text
  import opened UnstructuredValues

  /** The meaningful fields of a condition. The transition time is written with each
      condition but never read back, so it lives only in the raw object. */
  datatype Condition = Condition(kind: string, status: string, reason: string, message: string,
                                 observedGeneration: int)

  /** What the adapter projects from one DPF child. */
  datatype ChildStatus = ChildStatus(name: string, generation: int, observedGeneration: int, ready: string)

  const READY := "Ready"

  // ---- The target conditions -----------------------------------------------------------

  predicate Converged(c: ChildStatus) {
    c.generation > 0 && c.observedGeneration >= c.generation
  }

  function NothingObserved(generation: int): Condition {
    Condition(READY, "False", "Progressing", "no DPF children observed yet", generation)
  }

  function Lagging(c: ChildStatus, generation: int): Condition {
    Condition(READY, "False", "WaitingOnDPF",
              "DPF child \"" + c.name + "\" not reconciled (observedGeneration "
              + Decimal(c.observedGeneration) + " < generation " + Decimal(c.generation) + ")", generation)
  }

  function NotAllReady(generation: int): Condition {
    Condition(READY, "False", "Progressing", "DPF children converged but not all Ready", generation)
  }

  function AllReady(generation: int): Condition {
    Condition(READY, "True", "ComponentsReady", "all DPF children ready", generation)
  }

  /** The least index of a child that has not caught up with its own spec. */
  ghost predicate FirstLagging(children: seq<ChildStatus>, i: int) {
    && 0 <= i < |children|
    && !Converged(children[i])
    && forall j | 0 <= j < i :: Converged(children[j])
  }

  /** The target condition as a relation on what was observed: one clause per verdict. */
  ghost predicate IsVerdict(children: seq<ChildStatus>, generation: int, r: Condition) {
    if children == [] then r == NothingObserved(generation)
    else if exists i :: FirstLagging(children, i) then
      exists i :: FirstLagging(children, i) && r == Lagging(children[i], generation)
    else r == (if forall c | c in children :: c.ready == "True" then AllReady(generation)
               else NotAllReady(generation))
  }

  function Verdict(children: seq<ChildStatus>, generation: int): (r: Condition)
    ensures IsVerdict(children, generation, r)
  {
    if children == [] then NothingObserved(generation)
    else
      var lag := CountConverged(children);
      if lag < |children| then
        assert FirstLagging(children, lag);
        Lagging(children[lag], generation)
      else if forall c | c in children :: c.ready == "True" then AllReady(generation)
      else NotAllReady(generation)
  }

  /** The length of the longest prefix of converged children. */
  function CountConverged(children: seq<ChildStatus>): (n: nat)
    ensures n <= |children|
    ensures forall j | 0 <= j < n :: Converged(children[j])
    ensures n < |children| ==> !Converged(children[n])
  {
    if children == [] || !Converged(children[0]) then 0
    else
      var n := CountConverged(children[1..]);
      assert forall j | 0 < j < n + 1 :: children[j] == children[1..][j - 1];
      1 + n
  }

  /** The relation pins the verdict down: the loop below and the function agree. */
  lemma VerdictIsUnique(children: seq<ChildStatus>, generation: int, r: Condition)
    requires IsVerdict(children, generation, r)
    ensures r == Verdict(children, generation)
  {
    var lag := CountConverged(children);
    if lag < |children| {
      assert FirstLagging(children, lag);
      forall i | FirstLagging(children, i)
        ensures i == lag
      {
      }
    }
  }

  method BuildTargetConditions(children: seq<ChildStatus>, generation: int) returns (r: seq<Condition>)
    ensures |r| == 1 && IsVerdict(children, generation, r[0])
  {
    if |children| == 0 {
      return [NothingObserved(generation)];
    }
    for i := 0 to |children|
      invariant forall j | 0 <= j < i :: Converged(children[j])
    {
      if !Converged(children[i]) {
        assert FirstLagging(children, i);
        return [Lagging(children[i], generation)];
      }
    }
    for i := 0 to |children|
      invariant forall j | 0 <= j < i :: children[j].ready == "True"
    {
      if children[i].ready != "True" {
        assert children[i] in children;
        return [NotAllReady(generation)];
      }
    }
    return [AllReady(generation)];
  }

  /** Ready=True is written exactly when something was observed, everything observed has caught
      up with its own spec, and everything observed reports Ready. */
  lemma ReadyExactly(children: seq<ChildStatus>, generation: int)
    ensures Verdict(children, generation).status == "True" <==>
            children != [] && forall c | c in children :: Converged(c) && c.ready == "True"
    ensures Verdict(children, generation).observedGeneration == generation
    ensures Verdict(children, generation).kind == READY
  {
    assert "True"[0] != "False"[0];
    if children != [] && CountConverged(children) < |children| {
      assert children[CountConverged(children)] in children;
    }
  }

  predicate CaughtUp(c: ChildStatus) {
    0 < c.generation <= c.observedGeneration
  }

  /** The first child that has not caught up with its own spec is the one the verdict speaks of. */
  lemma FirstLaggardIsNamed(children: seq<ChildStatus>, generation: int, i: nat)
    requires i < |children| && !CaughtUp(children[i]) && forall j | 0 <= j < i :: CaughtUp(children[j])
    ensures var r := Verdict(children, generation);
            && r.status == "False" && r.reason == "WaitingOnDPF"
            && r.message == "DPF child \"" + children[i].name + "\" not reconciled (observedGeneration "
                            + Decimal(children[i].observedGeneration) + " < generation "
                            + Decimal(children[i].generation) + ")"
  {
    LagIsFirst(children, i);
  }

  lemma LagIsFirst(children: seq<ChildStatus>, i: nat)
    requires i < |children| && !CaughtUp(children[i]) && forall j | 0 <= j < i :: CaughtUp(children[j])
    ensures CountConverged(children) == i
  {
    var lag := CountConverged(children);
    assert !Converged(children[i]) && forall j | 0 <= j < i :: Converged(children[j]);
  }

  /** With nothing observed, or everything caught up, the verdict is one of three whole conditions. */
  lemma CaughtUpVerdict(children: seq<ChildStatus>, generation: int)
    requires forall c | c in children :: CaughtUp(c)
    ensures Verdict(children, generation)
         == if children == [] then
              Condition("Ready", "False", "Progressing", "no DPF children observed yet", generation)
            else if forall c | c in children :: c.ready == "True" then
              Condition("Ready", "True", "ComponentsReady", "all DPF children ready", generation)
            else
              Condition("Ready", "False", "Progressing", "DPF children converged but not all Ready", generation)
  {
    assert forall i | 0 <= i < |children| :: children[i] in children;
    assert forall c | c in children :: Converged(c);
  }

  /** So the status is True or False and nothing else. */
  lemma VerdictIsTrueOrFalse(children: seq<ChildStatus>, generation: int)
    ensures var r := Verdict(children, generation);
            r.kind == "Ready" && r.observedGeneration == generation && (r.status == "True" || r.status == "False")
  {
  }

  // ---- The Equality gate ---------------------------------------------------------------

  predicate IsLastOfKind(a: seq<Condition>, i: int) {
    0 <= i < |a| && forall j | i < j < |a| :: a[j].kind != a[i].kind
  }

  ghost predicate HasAsLast(a: seq<Condition>, c: Condition) {
    exists i :: IsLastOfKind(a, i) && a[i] == c
  }

  /** Every condition of b is the last condition of its type in a. */
  ghost predicate SemanticallyEqual(a: seq<Condition>, b: seq<Condition>) {
    && |a| == |b|
    && forall j | 0 <= j < |b| :: HasAsLast(a, b[j])
  }

  /** The index the gate builds: later conditions of a type replace earlier ones. */
  function Index(a: seq<Condition>): map<string, Condition> {
    if a == [] then map[]
    else Index(a[..|a| - 1])[a[|a| - 1].kind := a[|a| - 1]]
  }

  lemma {:induction false} IndexHoldsTheLast(a: seq<Condition>, t: string)
    ensures t in Index(a) <==> exists i :: IsLastOfKind(a, i) && a[i].kind == t
    ensures forall i | IsLastOfKind(a, i) && a[i].kind == t :: t in Index(a) && Index(a)[t] == a[i]
  {
    if a != [] {
      var front := a[..|a| - 1];
      IndexHoldsTheLast(front, t);
      assert IsLastOfKind(a, |a| - 1);
      if t != a[|a| - 1].kind {
        forall i | 0 <= i < |front| && a[i].kind == t
          ensures IsLastOfKind(front, i) <==> IsLastOfKind(a, i)
        {
        }
        if t in Index(front) {
          var i :| IsLastOfKind(front, i) && front[i].kind == t;
          assert IsLastOfKind(a, i);
        }
      }
    }
  }

  lemma EqualViaIndex(a: seq<Condition>, c: Condition)
    ensures HasAsLast(a, c) <==> c.kind in Index(a) && Index(a)[c.kind] == c
  {
    IndexHoldsTheLast(a, c.kind);
  }

  method ConditionsSemanticallyEqual(a: seq<Condition>, b: seq<Condition>) returns (equal: bool)
    ensures equal == SemanticallyEqual(a, b)
  {
    if |a| != |b| {
      return false;
    }
    var idx: map<string, Condition> := map[];
    for i := 0 to |a|
      invariant idx == Index(a[..i])
    {
      assert a[..i + 1][..i] == a[..i];
      idx := idx[a[i].kind := a[i]];
    }
    assert a[..|a|] == a;
    for j := 0 to |b|
      invariant forall k | 0 <= k < j :: HasAsLast(a, b[k])
    {
      EqualViaIndex(a, b[j]);
      if b[j].kind !in idx || idx[b[j].kind] != b[j] {
        return false;
      }
    }
    return true;
  }

  predicate DistinctKinds(a: seq<Condition>) {
    forall i, j | 0 <= i < j < |a| :: a[i].kind != a[j].kind
  }

  /** On lists without repeated types the gate is equality of condition sets, so it is
      symmetric and insensitive to order. */
  lemma {:induction false} EqualityGateOnDistinctKinds(a: seq<Condition>, b: seq<Condition>)
    requires DistinctKinds(a) && DistinctKinds(b)
    ensures SemanticallyEqual(a, b) <==> multiset(a) == multiset(b)
    ensures SemanticallyEqual(a, b) == SemanticallyEqual(b, a)
  {
    SubsetOfDistinct(a, b);
    SubsetOfDistinct(b, a);
  }

  lemma {:induction false} SubsetOfDistinct(a: seq<Condition>, b: seq<Condition>)
    requires DistinctKinds(a) && DistinctKinds(b)
    ensures SemanticallyEqual(a, b) <==> multiset(a) == multiset(b)
  {
    MultisetOfDistinct(a);
    MultisetOfDistinct(b);
    if multiset(a) == multiset(b) {
      assert |multiset(a)| == |a| && |multiset(b)| == |b|;
      forall j | 0 <= j < |b|
        ensures HasAsLast(a, b[j])
      {
        assert b[j] in multiset(b);
        var i :| 0 <= i < |a| && a[i] == b[j];
        assert IsLastOfKind(a, i);
      }
    }
    if SemanticallyEqual(a, b) {
      assert multiset(b) <= multiset(a) by {
        forall c | c in multiset(b)
          ensures multiset(b)[c] <= multiset(a)[c]
        {
          var j :| 0 <= j < |b| && b[j] == c;
        }
      }
      var rest := multiset(a) - multiset(b);
      assert multiset(a) == multiset(b) + rest;
      assert |rest| == 0;
    }
  }

  lemma {:induction false} MultisetOfDistinct(a: seq<Condition>)
    requires DistinctKinds(a)
    ensures forall c :: multiset(a)[c] == if c in a then 1 else 0
  {
    if a != [] {
      MultisetOfDistinct(a[1..]);
      assert a == [a[0]] + a[1..];
    }
  }

  /** Exactly when the gate is symmetric: of two lists it accepts one way round, it accepts the other way
      round if and only if the first holds no condition that the second lacks. A first list with a
      condition hidden behind a later one of its type is accepted one way only. */
  lemma EqualityGateSymmetry(a: seq<Condition>, b: seq<Condition>)
    requires SemanticallyEqual(a, b)
    ensures SemanticallyEqual(b, a) <==> forall c | c in a :: c in b
  {
    if SemanticallyEqual(b, a) {
      forall c | c in a
        ensures c in b
      {
        var i :| 0 <= i < |a| && a[i] == c;
        assert HasAsLast(b, a[i]);
      }
    } else if forall c | c in a :: c in b {
      forall i | 0 <= i < |a|
        ensures HasAsLast(b, a[i])
      {
        assert a[i] in b;
        LastOfItsKind(a, b, a[i]);
      }
    }
  }

  /** All conditions of one type in an accepted second list are the same, so its last is any of them. */
  lemma LastOfItsKind(a: seq<Condition>, b: seq<Condition>, c: Condition)
    requires SemanticallyEqual(a, b) && c in b
    ensures HasAsLast(b, c)
  {
    var j :| 0 <= j < |b| && b[j] == c;
    HasALast(b, j);
    var last :| IsLastOfKind(b, last) && b[last].kind == c.kind;
    assert HasAsLast(a, b[j]) && HasAsLast(a, b[last]);
    EqualViaIndex(a, b[j]);
    EqualViaIndex(a, b[last]);
  }

  lemma {:induction false} HasALast(b: seq<Condition>, j: nat)
    requires j < |b|
    ensures exists last :: IsLastOfKind(b, last) && b[last].kind == b[j].kind
    decreases |b| - j
  {
    if !IsLastOfKind(b, j) {
      var m :| j < m < |b| && b[m].kind == b[j].kind;
      HasALast(b, m);
    }
  }

  /** The smallest pair on which it is not. */
  lemma EqualityGateIsNotSymmetric(x: Condition, y: Condition)
    requires x.kind == y.kind && x != y
    ensures SemanticallyEqual([x, y], [y, y])
    ensures !SemanticallyEqual([y, y], [x, y])
  {
    assert IsLastOfKind([x, y], 1);
    assert x in [x, y] && x !in [y, y];
    EqualityGateSymmetry([x, y], [y, y]);
  }

  /** The adapter's own target is a single condition, where the gate is plain equality. */
  lemma EqualityGateOnTarget(current: seq<Condition>, target: Condition)
    ensures SemanticallyEqual(current, [target]) <==> current == [target]
  {
    assert [target][0] == target;
    if current == [target] {
      assert IsLastOfKind(current, 0);
    }
  }

  // ---- Conditions on an unstructured object --------------------------------------------

  function StringField(m: map<string, Json>, field: string): string {
    if field in m && m[field].JString? then m[field].text else ""
  }

  function IntField(m: map<string, Json>, field: string): int {
    if field in m && m[field].JInt? then m[field].number else 0
  }

  function DecodeCondition(m: map<string, Json>): Condition {
    Condition(StringField(m, "type"), StringField(m, "status"), StringField(m, "reason"),
              StringField(m, "message"), IntField(m, "observedGeneration"))
  }

  function EncodeCondition(c: Condition, stamp: string): Json {
    JMap(map["type" := JString(c.kind), "status" := JString(c.status), "reason" := JString(c.reason),
             "message" := JString(c.message), "observedGeneration" := JInt(c.observedGeneration),
             "lastTransitionTime" := JString(stamp)])
  }

  function DecodeAll(raw: seq<Json>): seq<Condition> {
    if raw == [] then []
    else (if raw[0].JMap? then [DecodeCondition(raw[0].fields)] else []) + DecodeAll(raw[1..])
  }

  /** The conditions stored at status.conditions; anything malformed reads as no conditions. */
  function ConditionsOf(o: map<string, Json>): seq<Condition> {
    if "status" in o && o["status"].JMap? && "conditions" in o["status"].fields
       && o["status"].fields["conditions"].JList?
    then DecodeAll(o["status"].fields["conditions"].items)
    else []
  }

  /** Whether status.conditions can be written: status is absent or is a map. */
  predicate Settable(o: map<string, Json>) {
    "status" in o ==> o["status"].JMap?
  }

  function EncodeAll(conds: seq<Condition>, stamps: seq<string>): seq<Json>
    requires |stamps| == |conds|
  {
    seq(|conds|, i requires 0 <= i < |conds| => EncodeCondition(conds[i], stamps[i]))
  }

  /** The object after a write of status.conditions; a write through a malformed status fails
      and its error is dropped. */
  function WithConditions(o: map<string, Json>, conds: seq<Condition>, stamps: seq<string>): map<string, Json>
    requires |stamps| == |conds|
  {
    if !Settable(o) then o
    else
      var fields := if "status" in o then o["status"].fields else map[];
      o["status" := JMap(fields["conditions" := JList(EncodeAll(conds, stamps))])]
  }

  class Unstructured {
    var content: map<string, Json>

    constructor (content: map<string, Json>)
      ensures this.content == content
    {
      this.content := content;
    }

    method ExtractConditions() returns (out: seq<Condition>)
      ensures out == ConditionsOf(content)
    {
      out := [];
      if "status" !in content || !content["status"].JMap? {
        return;
      }
      var status := content["status"].fields;
      if "conditions" !in status || !status["conditions"].JList? {
        return;
      }
      var raw := status["conditions"].items;
      for i := 0 to |raw|
        invariant out + DecodeAll(raw[i..]) == DecodeAll(raw)
      {
        if raw[i].JMap? {
          out := out + [DecodeCondition(raw[i].fields)];
        }
      }
    }

    method SetConditions(conds: seq<Condition>, stamps: seq<string>)
      requires |stamps| == |conds|
      modifies this
      ensures content == WithConditions(old(content), conds, stamps)
    {
      var raw: seq<Json> := [];
      for i := 0 to |conds|
        invariant raw == EncodeAll(conds, stamps)[..i]
      {
        raw := raw + [EncodeCondition(conds[i], stamps[i])];
      }
      assert raw == EncodeAll(conds, stamps);
      if "status" !in content {
        content := content["status" := JMap(map["conditions" := JList(raw)])];
      } else if content["status"].JMap? {
        content := content["status" := JMap(content["status"].fields["conditions" := JList(raw)])];
      }
    }

    /** The status half of one reconcile pass, with the API server's answer to the write. */
    method StatusPass(p: Pass) returns (wrote: bool)
      requires |p.stamps| == 1
      modifies this
      ensures content == AfterPass(old(content), p)
      ensures wrote == PassWrites(old(content), p)
    {
      var target := BuildTargetConditions(p.children, p.generation);
      VerdictIsUnique(p.children, p.generation, target[0]);
      assert target == [Target(p)];
      var current := ExtractConditions();
      var same := ConditionsSemanticallyEqual(current, target);
      EqualityGateOnTarget(current, Target(p));
      if same || !p.accepted {
        return false;
      }
      SetConditions(target, p.stamps);
      return true;
    }
  }

  lemma {:induction false} DecodeEncode(conds: seq<Condition>, stamps: seq<string>)
    requires |stamps| == |conds|
    ensures DecodeAll(EncodeAll(conds, stamps)) == conds
  {
    if conds != [] {
      DecodeEncode(conds[1..], stamps[1..]);
      assert EncodeAll(conds, stamps)[1..] == EncodeAll(conds[1..], stamps[1..]);
      DecodeEncodeOne(conds[0], stamps[0]);
      assert EncodeAll(conds, stamps)[0] == EncodeCondition(conds[0], stamps[0]);
    }
  }

  lemma DecodeEncodeOne(c: Condition, stamp: string)
    ensures EncodeCondition(c, stamp).JMap? && DecodeCondition(EncodeCondition(c, stamp).fields) == c
  {
  }

  /** Every condition is written with its time, as one more field. */
  lemma WrittenConditionsAreStamped(o: map<string, Json>, conds: seq<Condition>, stamps: seq<string>, i: nat)
    requires |stamps| == |conds| && i < |conds| && Settable(o)
    ensures var after := WithConditions(o, conds, stamps);
            && "status" in after && after["status"].JMap? && "conditions" in after["status"].fields
            && var written := after["status"].fields["conditions"];
               && written.JList? && |written.items| == |conds| && written.items[i].JMap?
               && "lastTransitionTime" in written.items[i].fields
               && written.items[i].fields["lastTransitionTime"] == JString(stamps[i])
  {
  }

  /** Items that are no maps do not count, wherever they stand. */
  lemma {:induction false} MalformedItemsAreSkipped(raw: seq<Json>, i: nat)
    requires i < |raw| && !raw[i].JMap?
    ensures DecodeAll(raw) == DecodeAll(raw[..i] + raw[i + 1..])
  {
    var others := raw[..i] + raw[i + 1..];
    if i == 0 {
      assert others == raw[1..];
    } else {
      MalformedItemsAreSkipped(raw[1..], i - 1);
      assert others[0] == raw[0] && others[1..] == raw[1..][..i - 1] + raw[1..][i..];
    }
  }

  /** A field that is missing or of another type reads as empty, and an object without a list of conditions has
      none. */
  lemma WhatIsMissingReadsAsNothing(o: map<string, Json>, m: map<string, Json>)
    ensures ConditionsOf(o) != [] ==> "status" in o && o["status"].JMap?
    ensures ConditionsOf(o) != [] ==>
              "conditions" in o["status"].fields && o["status"].fields["conditions"].JList?
    ensures var c := DecodeCondition(m);
            && (!("type" in m && m["type"].JString?) ==> c.kind == "")
            && (!("status" in m && m["status"].JString?) ==> c.status == "")
            && (!("reason" in m && m["reason"].JString?) ==> c.reason == "")
            && (!("message" in m && m["message"].JString?) ==> c.message == "")
            && (!("observedGeneration" in m && m["observedGeneration"].JInt?) ==> c.observedGeneration == 0)
  {
  }

  /** Reading back what was written gives it back exactly when the status field can be written
      at all; nothing else on the object changes. */
  lemma ExtractUndoesSet(o: map<string, Json>, conds: seq<Condition>, stamps: seq<string>)
    requires |stamps| == |conds|
    ensures ConditionsOf(WithConditions(o, conds, stamps)) == conds <==> Settable(o) || conds == []
    ensures forall f | f != "status" :: (f in WithConditions(o, conds, stamps) <==> f in o)
                                        && (f in o ==> WithConditions(o, conds, stamps)[f] == o[f])
    ensures Settable(o) ==> var after := WithConditions(o, conds, stamps);
              "status" in after && after["status"].JMap?
    ensures Settable(o) && "status" in o ==> var after := WithConditions(o, conds, stamps);
              after["status"].fields - {"conditions"} == o["status"].fields - {"conditions"}
  {
    DecodeEncode(conds, stamps);
  }

  // ---- Write amplification -------------------------------------------------------------

  /** One pass: what it observed, and whether the API server accepts its status write. */
  datatype Pass = Pass(children: seq<ChildStatus>, generation: int, stamps: seq<string>, accepted: bool)

  function Target(p: Pass): Condition {
    Verdict(p.children, p.generation)
  }

  predicate PassWrites(o: map<string, Json>, p: Pass) {
    ConditionsOf(o) != [Target(p)] && p.accepted
  }

  function AfterPass(o: map<string, Json>, p: Pass): map<string, Json>
    requires |p.stamps| == 1
  {
    if PassWrites(o, p) then WithConditions(o, [Target(p)], p.stamps) else o
  }

  predicate Stamped(passes: seq<Pass>) {
    forall p | p in passes :: |p.stamps| == 1
  }

  function StatusWrites(o: map<string, Json>, passes: seq<Pass>): nat
    requires Stamped(passes)
    decreases |passes|
  {
    if passes == [] then 0
    else (if PassWrites(o, passes[0]) then 1 else 0) + StatusWrites(AfterPass(o, passes[0]), passes[1..])
  }

  /** The number of adjacent passes whose targets differ. */
  function Transitions(passes: seq<Pass>): nat {
    if |passes| < 2 then 0
    else (if Target(passes[0]) != Target(passes[1]) then 1 else 0) + Transitions(passes[1..])
  }

  lemma {:induction false} WritesBound(o: map<string, Json>, passes: seq<Pass>)
    requires Stamped(passes) && Settable(o)
    ensures StatusWrites(o, passes) <= 1 + Transitions(passes)
    ensures passes != [] && ConditionsOf(o) == [Target(passes[0])] ==> StatusWrites(o, passes) <= Transitions(passes)
    decreases |passes|
  {
    if passes != [] {
      ExtractUndoesSet(o, [Target(passes[0])], passes[0].stamps);
      WritesBound(AfterPass(o, passes[0]), passes[1..]);
    }
  }

  /** Status writes in any run of passes are at most one more than the number of adjacent passes
      whose target differs, rejected writes included, exactly for objects whose status can be
      written: through a malformed status every pass writes again. */
  lemma WriteAmplification(o: map<string, Json>)
    ensures Settable(o) <==> forall passes | Stamped(passes) :: StatusWrites(o, passes) <= 1 + Transitions(passes)
  {
    if Settable(o) {
      forall passes | Stamped(passes)
        ensures StatusWrites(o, passes) <= 1 + Transitions(passes)
      {
        WritesBound(o, passes);
      }
    } else {
      var p := Pass([], 1, [""], true);
      var twice := [p, p];
      assert twice[1..] == [p] && [p][1..] == [];
      assert ConditionsOf(o) == [];
      assert StatusWrites(o, [p]) == 1;
      assert Stamped(twice) && StatusWrites(o, twice) == 2 && Transitions(twice) == 0;
      assert exists passes | Stamped(passes) :: StatusWrites(o, passes) > 1 + Transitions(passes);
    }
  }

  function AfterPasses(o: map<string, Json>, passes: seq<Pass>): map<string, Json>
    requires Stamped(passes)
  {
    if passes == [] then o
    else
      assert passes[|passes| - 1] in passes;
      AfterPass(AfterPasses(o, passes[..|passes| - 1]), passes[|passes| - 1])
  }

  ghost predicate LastAccepted(passes: seq<Pass>, i: int) {
    0 <= i < |passes| && passes[i].accepted && forall j | i < j < |passes| :: !passes[j].accepted
  }

  /** The object says what the last pass with a willing server found, and what it said before if there was
      none; and nothing but the status has changed. */
  ghost predicate Stands(o: map<string, Json>, passes: seq<Pass>, after: map<string, Json>) {
    && Settable(after) && SameButStatus(o, after)
    && (forall i | LastAccepted(passes, i) ::
          ConditionsOf(after) == [Verdict(passes[i].children, passes[i].generation)])
    && ((forall p | p in passes :: !p.accepted) ==> after == o)
  }

  lemma StandsLonger(o: map<string, Json>, front: seq<Pass>, before: map<string, Json>, last: Pass,
                     after: map<string, Json>)
    requires Stands(o, front, before) && Settable(after) && SameButStatus(before, after)
    requires if last.accepted then ConditionsOf(after) == [Target(last)] else after == before
    ensures Stands(o, front + [last], after)
  {
    var passes := front + [last];
    assert last in passes && forall p | p in front :: p in passes;
    forall i | LastAccepted(passes, i)
      ensures ConditionsOf(after) == [Verdict(passes[i].children, passes[i].generation)]
    {
      if i < |front| {
        assert !passes[|front|].accepted;
        assert forall j | i < j < |front| :: front[j] == passes[j];
        assert LastAccepted(front, i);
      }
    }
  }

  /** After any run of passes the status stands where the last accepted pass left it. */
  lemma {:induction false} StatusIsTheLastTarget(o: map<string, Json>, passes: seq<Pass>)
    requires Stamped(passes) && Settable(o)
    ensures Stands(o, passes, AfterPasses(o, passes))
  {
    if passes != [] {
      var front, last := passes[..|passes| - 1], passes[|passes| - 1];
      assert last in passes && passes == front + [last];
      StatusIsTheLastTarget(o, front);
      OnePass(AfterPasses(o, front), last);
      StandsLonger(o, front, AfterPasses(o, front), last, AfterPasses(o, passes));
    }
  }

  ghost predicate SameButStatus(o: map<string, Json>, after: map<string, Json>) {
    forall f | f != "status" :: (f in after <==> f in o) && (f in o ==> after[f] == o[f])
  }

  lemma OnePass(o: map<string, Json>, p: Pass)
    requires |p.stamps| == 1 && Settable(o)
    ensures var after := AfterPass(o, p);
            && Settable(after) && SameButStatus(o, after)
            && if p.accepted then ConditionsOf(after) == [Target(p)] else after == o
  {
    ExtractUndoesSet(o, [Target(p)], p.stamps);
  }

  /** A pass that observes what the last accepted pass observed leaves the object alone. */
  lemma QuietAfterWrite(o: map<string, Json>, p: Pass, next: Pass)
    requires |p.stamps| == 1 && |next.stamps| == 1
    requires Settable(o) && PassWrites(o, p)
    requires next.children == p.children && next.generation == p.generation
    ensures !PassWrites(AfterPass(o, p), next) && AfterPass(AfterPass(o, p), next) == AfterPass(o, p)
  {
    ExtractUndoesSet(o, [Target(p)], p.stamps);
  }
}
