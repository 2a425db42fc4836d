/** From one ServiceFunctionChain, or one per-pod network-function request, to an ordered plan of
    DPF objects with deterministic names and ownership labels. */
module SfcTranslation {
  import opened Text
  import opened UnstructuredValues
  import opened DpfStore

  const MANAGED_NAMESPACE := "opi-nvidia-system"
  const OWNER_KIND := "opi.opiproject.org/owner-kind"
  const OWNER_NAME := "opi.opiproject.org/owner-name"
  const OWNER_NAMESPACE := "opi.opiproject.org/owner-namespace"
  const COMPONENT := "opi.opiproject.org/component"
  const BRIDGE_ID := "opi.opiproject.org/bridge-id"

  /** The kinds a deletion pass sweeps, in its order. */
  const OWNED_KINDS: seq<Gvk> := [DPUServiceChain, DPUServiceInterface, DPUServiceIPAM, DPUService]

  predicate HexDigit(c: char) {
    '0' <= c <= '9' || 'a' <= c <= 'f'
  }

  predicate Hex(s: string, length: nat) {
    |s| == length && forall i | 0 <= i < |s| :: HexDigit(s[i])
  }

  // ---- Names ---------------------------------------------------------------------------

  function Keep(c: char): string {
    if 'a' <= c <= 'z' || '0' <= c <= '9' then [c]
    else if c == '-' || c == '.' || c == '_' || c == ' ' then "-"
    else ""
  }

  function KeepAll(s: string): string {
    if s == "" then "" else KeepAll(s[..|s| - 1]) + Keep(s[|s| - 1])
  }

  function Sanitize(lower: char -> char, s: string): string {
    var trimmed := Trim(KeepAll(MapChars(s, lower)), Dash);
    var short := if |trimmed| > 40 then trimmed[..40] else trimmed;
    if short == "" then "unnamed" else short
  }

  method SanitizeRfc1123(lower: char -> char, s: string) returns (r: string)
    ensures r == Sanitize(lower, s)
  {
    var lowered := MapChars(s, lower);
    var b := "";
    for i := 0 to |lowered|
      invariant b == KeepAll(lowered[..i])
    {
      assert lowered[..i + 1][..i] == lowered[..i];
      b := b + Keep(lowered[i]);
    }
    assert lowered[..|lowered|] == lowered;
    r := Trim(b, Dash);
    if |r| > 40 {
      r := r[..40];
    }
    if r == "" {
      r := "unnamed";
    }
  }

  /** The characters of a text that satisfy a predicate, in order. */
  function Filtered(s: string, keeps: char -> bool): string {
    if s == "" then ""
    else Filtered(s[..|s| - 1], keeps) + if keeps(s[|s| - 1]) then [s[|s| - 1]] else ""
  }

  predicate IsKept(c: char) {
    'a' <= c <= 'z' || '0' <= c <= '9' || c == '-' || c == '.' || c == '_' || c == ' '
  }

  function Dashed(c: char): char {
    if c == '.' || c == '_' || c == ' ' then '-' else c
  }

  /** Cleaning keeps letters, digits and dashes, makes dashes of dots, underscores and blanks, one for each, and
      drops everything else. */
  lemma {:induction false} CleaningFiltersAndMaps(s: string)
    ensures KeepAll(s) == MapChars(Filtered(s, IsKept), Dashed)
  {
    if s != "" {
      CleaningFiltersAndMaps(s[..|s| - 1]);
    }
  }

  /** So a cleaned name is what cleaning keeps, stripped of outer dashes, cut at 40, and never empty. */
  lemma SanitizeKeeps(lower: char -> char, s: string)
    ensures var kept := Trim(MapChars(Filtered(MapChars(s, lower), IsKept), Dashed), Dash);
            Sanitize(lower, s) == if kept == "" then "unnamed" else if |kept| <= 40 then kept else kept[..40]
  {
    CleaningFiltersAndMaps(MapChars(s, lower));
  }

  /** Free text before the cut. */
  function Cleaned(lower: char -> char, s: string): string {
    Trim(KeepAll(MapChars(s, lower)), Dash)
  }

  /** Trimming comes before cutting, so a cleaned name, and with it every name made from it, ends in a dash
      exactly when the cut falls behind one. */
  lemma CleanEndsInDash(lower: char -> char, s: string)
    ensures var r := Sanitize(lower, s);
            r != "" && (r[|r| - 1] == '-' <==> |Cleaned(lower, s)| > 40 && Cleaned(lower, s)[39] == '-')
  {
    CutEndsInDash(Cleaned(lower, s), if |Cleaned(lower, s)| > 40 then Cleaned(lower, s)[..40] else Cleaned(lower, s));
  }

  lemma CutEndsInDash(trimmed: string, short: string)
    requires trimmed != "" ==> trimmed[|trimmed| - 1] != '-'
    requires short == if |trimmed| > 40 then trimmed[..40] else trimmed
    ensures var r := if short == "" then "unnamed" else short;
            r != "" && (r[|r| - 1] == '-' <==> |trimmed| > 40 && trimmed[39] == '-')
  {
    assert "unnamed"[6] == 'd';
  }

  /** What names are made of: the cleaning of free text, and SHA-1 in hex. */
  datatype Platform = Platform(clean: string -> string, sha1: string -> string)

  ghost predicate Sound(p: Platform) {
    && (forall s :: Hex(p.sha1(s), 40))
    && (forall h | Hex(h, 12) :: p.clean(h) == h)
  }

  function StandardPlatform(lower: char -> char, sha1: string -> string): Platform {
    Platform(s => Sanitize(lower, s), sha1)
  }

  lemma {:induction false} HexIsKept(lower: char -> char, s: string)
    requires forall c | 'a' <= c <= 'z' || '0' <= c <= '9' :: lower(c) == c
    requires forall i | 0 <= i < |s| :: HexDigit(s[i])
    ensures MapChars(s, lower) == s && KeepAll(s) == s
  {
    if s != "" {
      HexIsKept(lower, s[..|s| - 1]);
      assert s == s[..|s| - 1] + [s[|s| - 1]];
    }
  }

  /** Cleaning with any lower-casing that fixes ASCII letters and digits leaves a request hash as it
      is, so the source's platform meets what the naming results assume. */
  lemma StandardPlatformIsSound(lower: char -> char, sha1: string -> string)
    requires forall c | 'a' <= c <= 'z' || '0' <= c <= '9' :: lower(c) == c
    requires forall s :: Hex(sha1(s), 40)
    ensures Sound(StandardPlatform(lower, sha1))
  {
    forall h | Hex(h, 12)
      ensures Sanitize(lower, h) == h
    {
      HexIsClean(lower, h);
    }
  }

  lemma HexIsClean(lower: char -> char, h: string)
    requires forall c | 'a' <= c <= 'z' || '0' <= c <= '9' :: lower(c) == c
    requires Hex(h, 12)
    ensures Sanitize(lower, h) == h
  {
    HexIsKept(lower, h);
    HexIsTrimmed(h);
  }

  lemma HexIsTrimmed(h: string)
    requires Hex(h, 12)
    ensures Trim(h, Dash) == h
  {
    assert HexDigit(h[0]) && HexDigit(h[11]);
    assert TrimLeft(h, Dash) == h;
  }

  function DeterministicName(p: Platform, namespace: string, name: string, role: string): string
    requires Sound(p)
  {
    assert Hex(p.sha1(namespace + "/" + name + "/" + role), 40);
    "opi-" + p.sha1(namespace + "/" + name + "/" + role)[..8] + "-" + p.clean(name)
  }

  function OwnerLabels(kind: string, namespace: string, name: string): map<string, string> {
    map[OWNER_KIND := kind, OWNER_NAME := name, OWNER_NAMESPACE := namespace, COMPONENT := "nvidia-vsp"]
  }

  function SfcSelector(namespace: string, name: string): map<string, string> {
    OwnerLabels("ServiceFunctionChain", namespace, name)
  }

  /** How derived objects are named, from the owner's namespace, its name and the role, and how
      free text is cleaned. What follows about plans holds for any scheme. */
  datatype Scheme = Scheme(name: (string, string, string) -> string, clean: string -> string)

  function StandardScheme(p: Platform): Scheme
    requires Sound(p)
  {
    Scheme((namespace, name, role) => DeterministicName(p, namespace, name, role), p.clean)
  }

  // ---- The plan of a ServiceFunctionChain ----------------------------------------------

  datatype NetworkFunction = NetworkFunction(name: string, image: string)

  datatype Sfc = Sfc(namespace: string, name: string, functions: seq<NetworkFunction>, ipamSubnet: string,
                     nodeSelector: map<string, string>)

  function Strings(m: map<string, string>): Json {
    JMap(map k | k in m :: JString(m[k]))
  }

  function InterfaceName(n: Scheme, s: Sfc, nf: NetworkFunction, direction: string): string
  {
    n.name(s.namespace, s.name, "iface-" + nf.name + "-" + direction)
  }

  function ManagedObject(s: Sfc, gvk: Gvk, name: string, spec: map<string, Json>): DpfObject {
    DpfObject(gvk, MANAGED_NAMESPACE, name, SfcSelector(s.namespace, s.name), spec, None)
  }

  function NfValue(n: Scheme, nf: NetworkFunction): Json {
    JMap(map["name" := JString(n.clean(nf.name)), "image" := JString(nf.image)])
  }

  function ServiceSpec(values: seq<Json>): map<string, Json> {
    map["helmChart" := JString("opi-nf-wrapper"),
        "values" := JMap(map["networkFunctions" := JList(values)]),
        "deployInCluster" := JBool(true), "argoPruneEnabled" := JBool(true)]
  }

  function ServiceObject(n: Scheme, s: Sfc): DpfObject
  {
    var values := seq(|s.functions|, i requires 0 <= i < |s.functions| => NfValue(n, s.functions[i]));
    ManagedObject(s, DPUService, n.name(s.namespace, s.name, "service"), ServiceSpec(values))
  }

  function InterfaceObject(n: Scheme, s: Sfc, nf: NetworkFunction, direction: string): DpfObject
  {
    ManagedObject(s, DPUServiceInterface, InterfaceName(n, s, nf, direction),
                  map["interfaceType" := JString("service"), "service" := JString(n.clean(nf.name)),
                      "direction" := JString(direction), "nodeSelector" := Strings(s.nodeSelector)])
  }

  function Interfaces(n: Scheme, s: Sfc, count: nat): seq<DpfObject>
    requires count <= |s.functions|
  {
    if count == 0 then []
    else
      var nf := s.functions[count - 1];
      Interfaces(n, s, count - 1) + [InterfaceObject(n, s, nf, "in"), InterfaceObject(n, s, nf, "out")]
  }

  function HopOf(n: Scheme, nf: NetworkFunction, interfaces: seq<Json>): Json {
    JMap(map["service" := JString(n.clean(nf.name)), "interfaces" := JList(interfaces)])
  }

  function Hop(n: Scheme, s: Sfc, nf: NetworkFunction): Json
  {
    HopOf(n, nf, [JString(InterfaceName(n, s, nf, "in")), JString(InterfaceName(n, s, nf, "out"))])
  }

  function Hops(n: Scheme, s: Sfc, count: nat): seq<Json>
    requires count <= |s.functions|
  {
    if count == 0 then [] else Hops(n, s, count - 1) + [Hop(n, s, s.functions[count - 1])]
  }

  function ChainSpec(s: Sfc, hops: seq<Json>): map<string, Json> {
    map["hops" := JList(hops), "nodeSelector" := Strings(s.nodeSelector)]
  }

  function ChainObject(n: Scheme, s: Sfc): DpfObject
  {
    ManagedObject(s, DPUServiceChain, n.name(s.namespace, s.name, "chain"), ChainSpec(s, Hops(n, s, |s.functions|)))
  }

  function IpamObject(n: Scheme, s: Sfc): DpfObject
  {
    ManagedObject(s, DPUServiceIPAM, n.name(s.namespace, s.name, "ipam"), map["subnet" := JString(s.ipamSubnet)])
  }

  function Plan(n: Scheme, s: Sfc): seq<DpfObject>
  {
    [ServiceObject(n, s)] + Interfaces(n, s, |s.functions|) + [ChainObject(n, s)]
    + if s.ipamSubnet == "" then [] else [IpamObject(n, s)]
  }

  method TranslateSfc(n: Scheme, s: Sfc) returns (plan: seq<DpfObject>)
    ensures plan == Plan(n, s)
  {
    var values: seq<Json> := [];
    for i := 0 to |s.functions|
      invariant |values| == i && forall j | 0 <= j < i :: values[j] == NfValue(n, s.functions[j])
    {
      values := values + [NfValue(n, s.functions[i])];
    }
    assert values == seq(|s.functions|, i requires 0 <= i < |s.functions| => NfValue(n, s.functions[i]));
    plan := [ManagedObject(s, DPUService, n.name(s.namespace, s.name, "service"), ServiceSpec(values))];
    var hops: seq<Json> := [];
    for i := 0 to |s.functions|
      invariant hops == Hops(n, s, i)
      invariant plan == [ServiceObject(n, s)] + Interfaces(n, s, i)
    {
      var objects, hop := TranslateFunction(n, s, s.functions[i]);
      plan := plan + objects;
      hops := hops + [hop];
    }
    plan := plan + [ManagedObject(s, DPUServiceChain, n.name(s.namespace, s.name, "chain"), ChainSpec(s, hops))];
    if s.ipamSubnet != "" {
      plan := plan + [IpamObject(n, s)];
    }
  }

  /** The body of the loop over network functions: ingress, then egress, and the hop naming both. */
  method TranslateFunction(n: Scheme, s: Sfc, nf: NetworkFunction) returns (objects: seq<DpfObject>, hop: Json)
    ensures objects == [InterfaceObject(n, s, nf, "in"), InterfaceObject(n, s, nf, "out")]
    ensures hop == Hop(n, s, nf)
  {
    objects := [];
    var names: seq<Json> := [];
    var directions := ["in", "out"];
    for d := 0 to 2
      invariant |names| == d && forall e | 0 <= e < d :: names[e] == JString(InterfaceName(n, s, nf, directions[e]))
      invariant |objects| == d && forall e | 0 <= e < d :: objects[e] == InterfaceObject(n, s, nf, directions[e])
    {
      names := names + [JString(InterfaceName(n, s, nf, directions[d]))];
      objects := objects + [InterfaceObject(n, s, nf, directions[d])];
    }
    assert names == [JString(InterfaceName(n, s, nf, "in")), JString(InterfaceName(n, s, nf, "out"))];
    hop := HopOf(n, nf, names);
  }

  lemma {:induction false} InterfacesAt(n: Scheme, s: Sfc, count: nat, i: nat)
    requires i < count <= |s.functions|
    ensures |Interfaces(n, s, count)| == count + count && |Hops(n, s, count)| == count
    ensures Interfaces(n, s, count)[i + i] == InterfaceObject(n, s, s.functions[i], "in")
    ensures Interfaces(n, s, count)[i + i + 1] == InterfaceObject(n, s, s.functions[i], "out")
    ensures Hops(n, s, count)[i] == Hop(n, s, s.functions[i])
  {
    if i < count - 1 {
      InterfacesAt(n, s, count - 1, i);
    } else if count > 1 {
      InterfacesAt(n, s, count - 1, 0);
    }
  }

  ghost predicate IsInterfaceOf(n: Scheme, s: Sfc, o: DpfObject)
  {
    exists nf, d :: o == InterfaceObject(n, s, nf, d)
  }

  lemma {:induction false} InterfacesAreInterfaces(n: Scheme, s: Sfc, count: nat, o: DpfObject)
    requires count <= |s.functions| && o in Interfaces(n, s, count)
    ensures IsInterfaceOf(n, s, o)
  {
    if o in Interfaces(n, s, count - 1) {
      InterfacesAreInterfaces(n, s, count - 1, o);
    }
  }

  /** Every planned object is spec-only, managed, of one of the swept kinds and labelled with its
      owner; the plan's only service and only chain are the two the owner's name determines. */
  lemma PlanMember(n: Scheme, s: Sfc, o: DpfObject)
    requires o in Plan(n, s)
    ensures o.conditions == None && o.namespace == MANAGED_NAMESPACE && o.gvk in OWNED_KINDS
    ensures o.labels == SfcSelector(s.namespace, s.name)
    ensures o.gvk == DPUService <==> o == ServiceObject(n, s)
    ensures o.gvk == DPUServiceChain <==> o == ChainObject(n, s)
  {
    if o in Interfaces(n, s, |s.functions|) {
      InterfacesAreInterfaces(n, s, |s.functions|, o);
    }
  }

  /** The i-th hop of the planned chain names exactly the two interfaces planned for the i-th
      network function, ingress first. */
  lemma ChainNamesItsInterfaces(n: Scheme, s: Sfc, i: nat)
    requires i < |s.functions|
    ensures var plan := Plan(n, s);
            && |plan| >= 2 + 2 * |s.functions|
            && plan[1 + 2 * i] == InterfaceObject(n, s, s.functions[i], "in")
            && plan[2 + 2 * i] == InterfaceObject(n, s, s.functions[i], "out")
            && plan[1 + 2 * |s.functions|] == ChainObject(n, s)
            && HopInterfaces(ChainObject(n, s), i) == [plan[1 + 2 * i].name, plan[2 + 2 * i].name]
  {
    InterfacesAt(n, s, |s.functions|, i);
    PlanPositions([ServiceObject(n, s)], Interfaces(n, s, |s.functions|), [ChainObject(n, s)],
                  if s.ipamSubnet == "" then [] else [IpamObject(n, s)], i);
    HopNames(n, s, i);
  }

  /** The service runs each network function's image under its cleaned name, in order; the chain is for the
      SFC's nodes; an IPAM object exists exactly when a subnet is given, and hands it out. */
  lemma PlanCarriesTheSpec(n: Scheme, s: Sfc)
    ensures var plan, last := Plan(n, s), 2 * |s.functions| + 1;
            && |plan| == last + (if s.ipamSubnet == "" then 1 else 2)
            && RunsFunctions(n, s, plan[0]) && plan[0].name == n.name(s.namespace, s.name, "service")
            && plan[last].gvk == DPUServiceChain && plan[last].name == n.name(s.namespace, s.name, "chain")
            && SelectsNodes(plan[last], s.nodeSelector)
            && (s.ipamSubnet != "" ==> HandsOut(n, s, plan[last + 1]))
  {
    if s.functions != [] {
      InterfacesAt(n, s, |s.functions|, 0);
    }
    PlanEnds([ServiceObject(n, s)], Interfaces(n, s, |s.functions|), [ChainObject(n, s)],
             if s.ipamSubnet == "" then [] else [IpamObject(n, s)]);
    ServiceRuns(n, s);
    ChainSelects(n, s);
    IpamHandsOut(n, s);
  }

  ghost predicate RunsFunctions(n: Scheme, s: Sfc, o: DpfObject) {
    && o.gvk == DPUService && IsWrapper(o) && |FunctionValues(o)| == |s.functions|
    && forall j | 0 <= j < |s.functions| :: FunctionValues(o)[j]
         == JMap(map["name" := JString(n.clean(s.functions[j].name)), "image" := JString(s.functions[j].image)])
  }

  ghost predicate HandsOut(n: Scheme, s: Sfc, o: DpfObject) {
    && o.gvk == DPUServiceIPAM && o.name == n.name(s.namespace, s.name, "ipam")
    && o.spec == map["subnet" := JString(s.ipamSubnet)]
  }

  lemma ChainSelects(n: Scheme, s: Sfc)
    ensures SelectsNodes(ChainObject(n, s), s.nodeSelector)
  {
  }

  lemma IpamHandsOut(n: Scheme, s: Sfc)
    ensures HandsOut(n, s, IpamObject(n, s))
  {
  }

  lemma PlanEnds(service: seq<DpfObject>, all: seq<DpfObject>, chain: seq<DpfObject>, ipam: seq<DpfObject>)
    requires |service| == |chain| == 1 && |ipam| <= 1
    ensures var plan := service + all + chain + ipam;
            && |plan| == 2 + |all| + |ipam| && plan[0] == service[0] && plan[1 + |all|] == chain[0]
            && (|ipam| == 1 ==> plan[2 + |all|] == ipam[0])
  {
  }

  lemma ServiceRuns(n: Scheme, s: Sfc)
    ensures RunsFunctions(n, s, ServiceObject(n, s))
  {
    var values := seq(|s.functions|, i requires 0 <= i < |s.functions| => NfValue(n, s.functions[i]));
    WrapperOf(ServiceObject(n, s), values);
  }

  lemma WrapperOf(o: DpfObject, values: seq<Json>)
    requires o.spec == ServiceSpec(values)
    ensures IsWrapper(o) && FunctionValues(o) == values
  {
    assert o.spec["values"] == JMap(map["networkFunctions" := JList(values)]);
  }

  /** Each network function has an ingress and an egress interface for the SFC's nodes, named in the order of
      the functions, and a hop. */
  lemma InterfacesCarryTheSpec(n: Scheme, s: Sfc, i: nat)
    requires i < |s.functions|
    ensures var plan, nf := Plan(n, s), s.functions[i];
            && |plan| >= 2 + 2 * |s.functions|
            && IsInterface(n, s, nf, plan[1 + 2 * i], "in")
            && IsInterface(n, s, nf, plan[2 + 2 * i], "out")
            && HopService(plan[1 + 2 * |s.functions|], i) == n.clean(nf.name)
  {
    ChainNamesItsInterfaces(n, s, i);
    InterfaceIs(n, s, s.functions[i], "in");
    InterfaceIs(n, s, s.functions[i], "out");
    HopIs(n, s, i);
  }

  lemma InterfaceIs(n: Scheme, s: Sfc, nf: NetworkFunction, direction: string)
    ensures IsInterface(n, s, nf, InterfaceObject(n, s, nf, direction), direction)
  {
  }

  lemma HopIs(n: Scheme, s: Sfc, i: nat)
    requires i < |s.functions|
    ensures HopService(ChainObject(n, s), i) == n.clean(s.functions[i].name)
  {
    InterfacesAt(n, s, |s.functions|, i);
    assert ChainObject(n, s).spec["hops"] == JList(Hops(n, s, |s.functions|));
  }

  /** The chart of the wrapper service, deployed in the cluster and pruned. */
  ghost predicate IsWrapper(o: DpfObject) {
    && |o.spec| == 4 && "values" in o.spec
    && "helmChart" in o.spec && o.spec["helmChart"] == JString("opi-nf-wrapper")
    && "deployInCluster" in o.spec && o.spec["deployInCluster"] == JBool(true)
    && "argoPruneEnabled" in o.spec && o.spec["argoPruneEnabled"] == JBool(true)
  }

  ghost predicate SelectsNodes(o: DpfObject, nodes: map<string, string>) {
    "nodeSelector" in o.spec && o.spec["nodeSelector"] == JMap(map l | l in nodes :: JString(nodes[l]))
  }

  ghost predicate IsInterface(n: Scheme, s: Sfc, nf: NetworkFunction, o: DpfObject, direction: string) {
    && o.gvk == DPUServiceInterface && o.name == n.name(s.namespace, s.name, "iface-" + nf.name + "-" + direction)
    && SelectsNodes(o, s.nodeSelector) && |o.spec| == 4
    && "interfaceType" in o.spec && o.spec["interfaceType"] == JString("service")
    && "service" in o.spec && o.spec["service"] == JString(n.clean(nf.name))
    && "direction" in o.spec && o.spec["direction"] == JString(direction)
  }

  /** The functions a service object is to run. */
  function FunctionValues(o: DpfObject): seq<Json> {
    if "values" in o.spec && o.spec["values"].JMap? && "networkFunctions" in o.spec["values"].fields
       && o.spec["values"].fields["networkFunctions"].JList? then o.spec["values"].fields["networkFunctions"].items
    else []
  }

  /** The service recorded for one hop of a chain object. */
  function HopService(chain: DpfObject, i: nat): string {
    if "hops" in chain.spec && chain.spec["hops"].JList? && i < |chain.spec["hops"].items| then
      var hop := chain.spec["hops"].items[i];
      if hop.JMap? && "service" in hop.fields && hop.fields["service"].JString? then hop.fields["service"].text else ""
    else ""
  }

  lemma PlanPositions(service: seq<DpfObject>, all: seq<DpfObject>, chain: seq<DpfObject>, ipam: seq<DpfObject>, i: nat)
    requires |service| == |chain| == 1 && i + i + 1 < |all|
    ensures var plan := service + all + chain + ipam;
            && |plan| == 2 + |all| + |ipam| && plan[1 + |all|] == chain[0]
            && plan[1 + 2 * i] == all[i + i] && plan[2 + 2 * i] == all[i + i + 1]
  {
  }

  lemma HopNames(n: Scheme, s: Sfc, i: nat)
    requires i < |s.functions|
    ensures HopInterfaces(ChainObject(n, s), i)
         == [InterfaceName(n, s, s.functions[i], "in"), InterfaceName(n, s, s.functions[i], "out")]
  {
    InterfacesAt(n, s, |s.functions|, i);
    assert ChainObject(n, s).spec["hops"] == JList(Hops(n, s, |s.functions|));
  }

  /** The interface names recorded for one hop of a chain object. */
  function HopInterfaces(chain: DpfObject, i: nat): seq<string> {
    if "hops" in chain.spec && chain.spec["hops"].JList? && i < |chain.spec["hops"].items| then
      var hop := chain.spec["hops"].items[i];
      if hop.JMap? && "interfaces" in hop.fields && hop.fields["interfaces"].JList? then
        var names := hop.fields["interfaces"].items;
        seq(|names|, j requires 0 <= j < |names| => if names[j].JString? then names[j].text else "")
      else []
    else []
  }

  lemma KindNamesFixKinds(g: Gvk, h: Gvk)
    requires g in OWNED_KINDS && h in OWNED_KINDS
    ensures '/' !in KindName(g) && Group(g) == Group(h)
    ensures KindName(g) == KindName(h) ==> g == h
  {
    assert |KindName(DPUService)| == 10 && |KindName(DPUServiceChain)| == 15;
    assert |KindName(DPUServiceInterface)| == 19 && |KindName(DPUServiceIPAM)| == 14;
  }

  /** Store keys of the swept kinds determine the kind, whatever the names. */
  lemma KeyFixesKind(o: DpfObject, q: DpfObject)
    requires o.gvk in OWNED_KINDS && q.gvk in OWNED_KINDS
    requires Key(o) == Key(q)
    ensures o.gvk == q.gvk && o.namespace + "/" + o.name == q.namespace + "/" + q.name
  {
    KindNamesFixKinds(o.gvk, q.gvk);
    KindNamesFixKinds(q.gvk, o.gvk);
    CutKey(Group(o.gvk), KindName(o.gvk), o.namespace, o.name, KindName(q.gvk), q.namespace, q.name);
  }

  lemma CutKey(group: string, kind: string, namespace: string, name: string, kind': string, namespace': string,
               name': string)
    requires '/' !in kind && '/' !in kind'
    requires group + "/" + kind + "/" + namespace + "/" + name == group + "/" + kind' + "/" + namespace' + "/" + name'
    ensures kind == kind' && namespace + "/" + name == namespace' + "/" + name'
  {
    var rest, rest' := kind + "/" + (namespace + "/" + name), kind' + "/" + (namespace' + "/" + name');
    assert group + "/" + kind + "/" + namespace + "/" + name == group + "/" + rest;
    assert group + "/" + kind' + "/" + namespace' + "/" + name' == group + "/" + rest';
    assert rest == (group + "/" + rest)[|group| + 1..] && rest' == (group + "/" + rest')[|group| + 1..];
    SplitOnce(kind, namespace + "/" + name, kind', namespace' + "/" + name', '/');
  }
}
