/** The map-backed DPF client: status-preserving upsert, idempotent delete, listing by label. */
module DpfStore {
  import opened Text
  import opened UnstructuredValues

  datatype Option<T> = None | Some(value: T)

  /** The DPF API types this integration writes or reads, all at version v1alpha1. */
  datatype Gvk =
    | DPFOperatorConfig | BFB | DPUFlavor | DPUSet | DPU | DPUCluster
    | DPUService | DPUServiceChain | DPUServiceInterface | DPUServiceIPAM

  function Group(g: Gvk): string {
    match g
    case DPFOperatorConfig => "operator.dpu.nvidia.com"
    case BFB => "provisioning.dpu.nvidia.com"
    case DPUFlavor => "provisioning.dpu.nvidia.com"
    case DPUSet => "provisioning.dpu.nvidia.com"
    case DPU => "provisioning.dpu.nvidia.com"
    case DPUCluster => "provisioning.dpu.nvidia.com"
    case DPUService => "svc.dpu.nvidia.com"
    case DPUServiceChain => "svc.dpu.nvidia.com"
    case DPUServiceInterface => "svc.dpu.nvidia.com"
    case DPUServiceIPAM => "svc.dpu.nvidia.com"
  }

  function KindName(g: Gvk): string {
    match g
    case DPFOperatorConfig => "DPFOperatorConfig"
    case BFB => "BFB"
    case DPUFlavor => "DPUFlavor"
    case DPUSet => "DPUSet"
    case DPU => "DPU"
    case DPUCluster => "DPUCluster"
    case DPUService => "DPUService"
    case DPUServiceChain => "DPUServiceChain"
    case DPUServiceInterface => "DPUServiceInterface"
    case DPUServiceIPAM => "DPUServiceIPAM"
  }

  datatype Condition = Condition(kind: string, status: bool, reason: string, message: string)

  /** `conditions` is None when the field was never set; only then does an upsert keep the
      conditions that are already stored. */
  datatype DpfObject = DpfObject(gvk: Gvk, namespace: string, name: string,
                                 labels: map<string, string>, spec: map<string, Json>,
                                 conditions: Option<seq<Condition>>)

  type Objects = map<string, DpfObject>

  function KeyOf(gvk: Gvk, namespace: string, name: string): string {
    Group(gvk) + "/" + KindName(gvk) + "/" + namespace + "/" + name
  }

  function Key(o: DpfObject): string {
    KeyOf(o.gvk, o.namespace, o.name)
  }

  predicate IsReady(o: DpfObject) {
    o.conditions.Some? && exists c | c in o.conditions.value :: c.kind == "Ready" && c.status
  }

  /** What readiness means: a condition of kind Ready, with status true, is among those reported. */
  ghost predicate TrueReady(conditions: Option<seq<Condition>>) {
    conditions.Some? && exists i | 0 <= i < |conditions.value| :: conditions.value[i].kind == "Ready"
                                                                 && conditions.value[i].status
  }

  lemma ReadyMeansTrue(o: DpfObject)
    ensures IsReady(o) <==> TrueReady(o.conditions)
  {
    if TrueReady(o.conditions) {
      var i :| 0 <= i < |o.conditions.value| && o.conditions.value[i].kind == "Ready" && o.conditions.value[i].status;
      assert o.conditions.value[i] in o.conditions.value;
    }
  }

  /** A missing label reads as the empty string. */
  function LabelOf(o: DpfObject, name: string): string {
    if name in o.labels then o.labels[name] else ""
  }

  predicate Selects(selector: map<string, string>, o: DpfObject) {
    forall k | k in selector :: LabelOf(o, k) == selector[k]
  }

  /** A selector asks for every one of its labels; an empty value also matches a label that is missing. */
  lemma SelectsExactly(selector: map<string, string>, o: DpfObject)
    ensures Selects(selector, o) <==> forall k | k in selector ::
              (k in o.labels && o.labels[k] == selector[k]) || (k !in o.labels && selector[k] == "")
  {
  }

  predicate Matches(o: DpfObject, gvk: Gvk, namespace: string, selector: map<string, string>) {
    o.gvk == gvk && (namespace == "" || o.namespace == namespace) && Selects(selector, o)
  }

  /** Every object is stored under its own key. */
  ghost predicate WellKeyed(objects: Objects) {
    forall k | k in objects :: Key(objects[k]) == k
  }

  function Applied(objects: Objects, o: DpfObject): Objects {
    var k := Key(o);
    objects[k := if k in objects && o.conditions == None then o.(conditions := objects[k].conditions) else o]
  }

  function WithConditions(objects: Objects, k: string, conditions: Option<seq<Condition>>): Objects {
    if k in objects then objects[k := objects[k].(conditions := conditions)] else objects
  }

  /** What deleting every one of some keys leaves. */
  function Without(objects: Objects, keys: seq<string>): Objects {
    map k | k in objects && k !in keys :: objects[k]
  }

  lemma WithoutSnoc(objects: Objects, keys: seq<string>, i: nat)
    requires i < |keys|
    ensures Without(objects, keys[..i + 1]) == Without(objects, keys[..i]) - {keys[i]}
  {
    assert keys[..i + 1] == keys[..i] + [keys[i]];
  }

  /** The keys of a listing: all matching objects, each once, in the order of their names. */
  ghost predicate IsListing(objects: Objects, gvk: Gvk, namespace: string,
                            selector: map<string, string>, keys: seq<string>) {
    && (forall k :: k in keys <==> k in objects && Matches(objects[k], gvk, namespace, selector))
    && Distinct(keys)
    && SortedByName(objects, keys)
  }

  ghost predicate HoldsAt(objects: Objects, keys: seq<string>, out: seq<DpfObject>) {
    |out| == |keys| && forall i | 0 <= i < |keys| :: keys[i] in objects && out[i] == objects[keys[i]]
  }

  ghost predicate IsList(objects: Objects, gvk: Gvk, namespace: string, selector: map<string, string>,
                         out: seq<DpfObject>) {
    exists keys :: IsListing(objects, gvk, namespace, selector, keys) && HoldsAt(objects, keys, out)
  }

  ghost predicate Distinct(keys: seq<string>) {
    forall i, j | 0 <= i < j < |keys| :: keys[i] != keys[j]
  }

  ghost predicate SortedByName(objects: Objects, keys: seq<string>) {
    && (forall k | k in keys :: k in objects)
    && forall i, j | 0 <= i < j < |keys| :: Leq(objects[keys[i]].name, objects[keys[j]].name)
  }

  function Insert(objects: Objects, keys: seq<string>, k: string): (r: seq<string>)
    requires k in objects && forall x | x in keys :: x in objects
    ensures forall x :: x in r <==> x == k || x in keys
    ensures |r| == |keys| + 1
  {
    if keys == [] || Leq(objects[k].name, objects[keys[0]].name) then [k] + keys
    else [keys[0]] + Insert(objects, keys[1..], k)
  }

  lemma FirstSorts(objects: Objects, keys: seq<string>, k: string)
    requires k in objects && k !in keys && SortedByName(objects, keys) && Distinct(keys)
    requires keys == [] || Leq(objects[k].name, objects[keys[0]].name)
    ensures SortedByName(objects, [k] + keys) && Distinct([k] + keys)
  {
    var r := [k] + keys;
    forall i, j | 0 <= i < j < |r|
      ensures Leq(objects[r[i]].name, objects[r[j]].name)
    {
      if i == 0 && j > 1 {
        LeqTransitive(objects[k].name, objects[keys[0]].name, objects[keys[j - 1]].name);
      }
    }
  }

  lemma {:induction false} InsertSorts(objects: Objects, keys: seq<string>, k: string)
    requires k in objects && k !in keys && SortedByName(objects, keys) && Distinct(keys)
    ensures SortedByName(objects, Insert(objects, keys, k)) && Distinct(Insert(objects, keys, k))
  {
    if keys == [] || Leq(objects[k].name, objects[keys[0]].name) {
      FirstSorts(objects, keys, k);
    } else {
      var head, rest := keys[0], Insert(objects, keys[1..], k);
      InsertSorts(objects, keys[1..], k);
      LeqTotal(objects[k].name, objects[head].name);
      forall x | x in rest
        ensures x != head && Leq(objects[head].name, objects[x].name)
      {
        if x != k {
          var i :| 0 <= i < |keys[1..]| && keys[1..][i] == x;
          assert keys[i + 1] == x;
        }
      }
      HeadSorts(objects, head, rest);
    }
  }

  lemma HeadSorts(objects: Objects, head: string, rest: seq<string>)
    requires head in objects && SortedByName(objects, rest) && Distinct(rest)
    requires forall x | x in rest :: x != head && Leq(objects[head].name, objects[x].name)
    ensures SortedByName(objects, [head] + rest) && Distinct([head] + rest)
  {
    assert forall i | 0 <= i < |rest| :: rest[i] in rest;
  }

  class InMemoryClient {
    var objects: Objects

    constructor ()
      ensures objects == map[]
    {
      objects := map[];
    }

    method Get(gvk: Gvk, namespace: string, name: string) returns (r: Option<DpfObject>)
      ensures var k := KeyOf(gvk, namespace, name);
              r == if k in objects then Some(objects[k]) else None
    {
      var k := KeyOf(gvk, namespace, name);
      r := if k in objects then Some(objects[k]) else None;
    }

    /** Visits the stored objects in no particular order and returns the matching ones by name. */
    method List(gvk: Gvk, namespace: string, selector: map<string, string>) returns (out: seq<DpfObject>)
      ensures IsList(objects, gvk, namespace, selector, out)
    {
      var todo := objects.Keys;
      var found: seq<string> := [];
      while todo != {}
        invariant todo <= objects.Keys
        invariant forall k ::
                    k in found <==> k in objects && k !in todo && Matches(objects[k], gvk, namespace, selector)
        invariant Distinct(found)
        invariant SortedByName(objects, found)
        decreases todo
      {
        var k :| k in todo;
        todo := todo - {k};
        if Matches(objects[k], gvk, namespace, selector) {
          InsertSorts(objects, found, k);
          found := Insert(objects, found, k);
        }
      }
      var stored := objects;
      assert forall i | 0 <= i < |found| :: found[i] in found;
      out := seq(|found|, i requires 0 <= i < |found| && found[i] in stored => stored[found[i]]);
      assert HoldsAt(objects, found, out);
    }

    method Apply(o: DpfObject)
      modifies this
      ensures objects == Applied(old(objects), o)
    {
      var stored := o;
      if Key(o) in objects && o.conditions == None {
        stored := o.(conditions := objects[Key(o)].conditions);
      }
      objects := objects[Key(o) := stored];
    }

    method Delete(gvk: Gvk, namespace: string, name: string)
      modifies this
      ensures objects == old(objects) - {KeyOf(gvk, namespace, name)}
    {
      objects := objects - {KeyOf(gvk, namespace, name)};
    }

    method SetConditions(k: string, conditions: Option<seq<Condition>>)
      modifies this
      ensures objects == WithConditions(old(objects), k, conditions)
    {
      if k in objects {
        objects := objects[k := objects[k].(conditions := conditions)];
      }
    }
  }

  // ---- Applying a whole plan -----------------------------------------------------------

  function AppliedAll(objects: Objects, plan: seq<DpfObject>): Objects
    decreases |plan|
  {
    if plan == [] then objects else AppliedAll(Applied(objects, plan[0]), plan[1..])
  }

  lemma {:induction false} AppliedSnoc(objects: Objects, plan: seq<DpfObject>, o: DpfObject)
    ensures AppliedAll(objects, plan + [o]) == Applied(AppliedAll(objects, plan), o)
    decreases |plan|
  {
    if plan == [] {
      assert [] + [o] == [o] && [o][1..] == [];
    } else {
      assert (plan + [o])[1..] == plan[1..] + [o];
      AppliedSnoc(Applied(objects, plan[0]), plan[1..], o);
    }
  }

  lemma AppliedPrefix(objects: Objects, plan: seq<DpfObject>, i: nat)
    requires i < |plan|
    ensures AppliedAll(objects, plan[..i + 1]) == Applied(AppliedAll(objects, plan[..i]), plan[i])
  {
    assert plan[..i + 1] == plan[..i] + [plan[i]];
    AppliedSnoc(objects, plan[..i], plan[i]);
  }

  ghost predicate SpecOnly(plan: seq<DpfObject>) {
    forall o | o in plan :: o.conditions == None
  }

  /** The last object of a plan that has the key k. */
  ghost predicate IsLastPlanned(plan: seq<DpfObject>, k: string, o: DpfObject) {
    exists i | 0 <= i < |plan| :: plan[i] == o && Key(o) == k && forall j | i < j < |plan| :: Key(plan[j]) != k
  }

  ghost predicate Planned(plan: seq<DpfObject>, k: string) {
    exists o | o in plan :: Key(o) == k
  }

  function ConditionsAt(objects: Objects, k: string): Option<seq<Condition>> {
    if k in objects then objects[k].conditions else None
  }

  /** What a plan of spec-only objects does, repeated keys included: each planned key ends up with
      the last spec planned for it and the conditions it had before, and no other key changes. */
  lemma {:induction false} AppliedAllAt(objects: Objects, plan: seq<DpfObject>, k: string)
    requires SpecOnly(plan)
    ensures !Planned(plan, k) ==> (k in AppliedAll(objects, plan) <==> k in objects)
                                  && (k in objects ==> AppliedAll(objects, plan)[k] == objects[k])
    ensures Planned(plan, k) ==>
              && k in AppliedAll(objects, plan)
              && AppliedAll(objects, plan)[k].conditions == ConditionsAt(objects, k)
              && IsLastPlanned(plan, k, AppliedAll(objects, plan)[k].(conditions := None))
    decreases |plan|
  {
    if plan != [] {
      var rest := plan[1..];
      var next := Applied(objects, plan[0]);
      assert plan[0] in plan && forall o | o in rest :: o in plan;
      AppliedAllAt(next, rest, k);
      FirstThenRest(plan, k);
      AppliedIsKept(objects, plan[0], k);
      if Planned(rest, k) {
        LastOfRest(plan, k, AppliedAll(next, rest)[k].(conditions := None));
      } else if Planned(plan, k) {
        FirstIsLast(plan, k);
      }
    }
  }

  lemma FirstThenRest(plan: seq<DpfObject>, k: string)
    requires plan != []
    ensures Planned(plan, k) <==> Key(plan[0]) == k || Planned(plan[1..], k)
  {
    assert plan == [plan[0]] + plan[1..];
    assert plan[0] in plan;
  }

  lemma AppliedIsKept(objects: Objects, o: DpfObject, k: string)
    requires o.conditions == None
    ensures var after := Applied(objects, o);
            && ConditionsAt(after, k) == ConditionsAt(objects, k)
            && (k == Key(o) ==> k in after && after[k].(conditions := None) == o)
            && (k != Key(o) ==> (k in after <==> k in objects) && (k in objects ==> after[k] == objects[k]))
  {
  }

  lemma LastOfRest(plan: seq<DpfObject>, k: string, o: DpfObject)
    requires plan != [] && IsLastPlanned(plan[1..], k, o)
    ensures IsLastPlanned(plan, k, o)
  {
    var rest := plan[1..];
    var i :| 0 <= i < |rest| && rest[i] == o && Key(o) == k && forall j | i < j < |rest| :: Key(rest[j]) != k;
    assert plan[i + 1] == o;
    assert forall j | i + 1 < j < |plan| :: plan[j] == rest[j - 1];
  }

  lemma FirstIsLast(plan: seq<DpfObject>, k: string)
    requires Planned(plan, k) && !Planned(plan[1..], k)
    ensures IsLastPlanned(plan, k, plan[0]) && Key(plan[0]) == k
  {
    var rest := plan[1..];
    assert plan == [plan[0]] + rest;
    assert forall j | 0 < j < |plan| :: plan[j] == rest[j - 1] && rest[j - 1] in rest;
  }

  lemma LastPlannedIsUnique(plan: seq<DpfObject>, k: string, a: DpfObject, b: DpfObject)
    requires IsLastPlanned(plan, k, a) && IsLastPlanned(plan, k, b)
    ensures a == b
  {
  }

  /** Applying a plan a second time changes nothing at all. */
  lemma ApplyTwiceIsApplyOnce(objects: Objects, plan: seq<DpfObject>)
    requires SpecOnly(plan)
    ensures AppliedAll(AppliedAll(objects, plan), plan) == AppliedAll(objects, plan)
  {
    var once := AppliedAll(objects, plan);
    var twice := AppliedAll(once, plan);
    forall k
      ensures k in once <==> k in twice
      ensures k in once ==> once[k] == twice[k]
    {
      AppliedAllAt(objects, plan, k);
      AppliedAllAt(once, plan, k);
      if Planned(plan, k) {
        LastPlannedIsUnique(plan, k, once[k].(conditions := None), twice[k].(conditions := None));
        assert once[k] == once[k].(conditions := None).(conditions := once[k].conditions);
        assert twice[k] == twice[k].(conditions := None).(conditions := twice[k].conditions);
      }
    }
  }

  lemma {:induction false} AppliedAllKeepsKeys(objects: Objects, plan: seq<DpfObject>)
    requires WellKeyed(objects)
    ensures WellKeyed(AppliedAll(objects, plan))
    decreases |plan|
  {
    if plan != [] {
      AppliedAllKeepsKeys(Applied(objects, plan[0]), plan[1..]);
    }
  }
}
