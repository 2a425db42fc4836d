/** The translation of an intent into child objects that only record what was asked for. Two intents
    render the same objects exactly when they say the same thing, whatever the order, padding or
    repetition in which they say it. */
module IntentTranslation {
  import opened Text
  import Names

  datatype Intent = Intent(
    name: string,
    sourceKind: string,
    scope: string,
    uid: string,
    selector: map<string, string>,
    profile: string,
    serviceProfiles: seq<string>,
    targetDeviceIds: seq<string>
  )

  datatype Kind = DPUSet | DPUDeployment

  /** The label and annotation keys the translation writes, without their prefixes. */
  datatype Key =
    | ManagedBy | SourceKind | SourceHash | TargetSetHash
    | SourceScope | SourceName | SourceUid | Profile | Selector | TargetIds | TargetIdsHash
    | ServiceOrder | ServiceProfiles | RenderedBy

  datatype Child = Child(kind: Kind, ns: string, name: string, labels: map<Key, string>, annotations: map<Key, string>)

  datatype Problem = NoName | NoKind | NoUid | NoProfile | NoTargets | NoSelector | BlankKey | BlankValue

  datatype Result = Ok(children: seq<Child>) | Err(problem: Problem)

  /** The functions the translation is built on: trimming by the platform's white space, the one-pass
      scanner, and the first ten hexadecimal digits of a SHA-256 sum. */
  datatype Platform = Platform(
    unicode: Names.Unicode,
    trim: string -> string,
    safeName: string -> string,
    hash: string -> string
  )

  function Standard(u: Names.Unicode, hash: string -> string): Platform {
    Platform(u, s => Trim(s, u.space), s => Names.SafeNameOf(u, s), hash)
  }

  lemma StandardIsSound(u: Names.Unicode, hash: string -> string)
    ensures SoundTrim(Standard(u, hash)) && SoundNames(Standard(u, hash))
  {
  }

  ghost predicate SoundNames(p: Platform) {
    forall s :: p.safeName(s) == Names.SafeNameOf(p.unicode, s)
  }

  ghost predicate SoundTrim(p: Platform) {
    forall s :: p.trim(s) == Trim(s, p.unicode.space)
  }

  ghost predicate SoundHash(p: Platform) {
    forall s :: Names.HexWord(p.hash(s), 10)
  }

  function Trimmed(p: Platform, s: string): string {
    p.trim(s)
  }

  predicate Blank(p: Platform, s: string) {
    Trimmed(p, s) == ""
  }

  // ---- Sorting -------------------------------------------------------------------------

  ghost predicate Ordered(s: seq<string>) {
    forall i, j | 0 <= i < j < |s| :: Leq(s[i], s[j])
  }

  ghost predicate Distinct(s: seq<string>) {
    forall i, j | 0 <= i < j < |s| :: s[i] != s[j]
  }

  ghost predicate Ascending(s: seq<string>) {
    Ordered(s) && Distinct(s)
  }

  function Elements(s: seq<string>): set<string> {
    set x | x in s
  }

  /** An ascending list is determined by its elements. */
  lemma {:induction false} AscendingIsUnique(a: seq<string>, b: seq<string>)
    requires Ascending(a) && Ascending(b) && Elements(a) == Elements(b)
    ensures a == b
  {
    NoElements(a);
    NoElements(b);
    if a != [] {
      assert a[0] in Elements(a) && a[0] in b;
      assert b[0] in Elements(b) && b[0] in a;
      LeqReflexive(a[0]);
      LeqReflexive(b[0]);
      LeqAntisymmetric(a[0], b[0]);
      TailElements(a);
      TailElements(b);
      AscendingIsUnique(a[1..], b[1..]);
      assert a == [a[0]] + a[1..] && b == [b[0]] + b[1..];
    }
  }

  lemma NoElements(a: seq<string>)
    ensures Elements(a) == {} <==> a == []
  {
    if a != [] {
      assert a[0] in Elements(a);
    }
  }

  lemma Snoc(s: seq<string>, x: string)
    ensures Elements(s + [x]) == Elements(s) + {x}
    ensures Distinct(s) && x !in Elements(s) ==> Distinct(s + [x])
  {
    assert forall y :: y in s + [x] <==> y in s || y == x;
    if Distinct(s) && x !in Elements(s) {
      assert forall i | 0 <= i < |s| :: s[i] in Elements(s);
    }
  }

  lemma LeqReflexive(a: string)
    ensures Leq(a, a)
  {
    LeqTotal(a, a);
  }

  lemma TailElements(a: seq<string>)
    requires Ascending(a) && a != []
    ensures Elements(a[1..]) == Elements(a) - {a[0]} && Ascending(a[1..])
  {
    forall x | x in Elements(a) - {a[0]}
      ensures x in a[1..]
    {
      var i :| 0 <= i < |a| && a[i] == x;
      assert a[1..][i - 1] == x;
    }
    assert forall i | 0 <= i < |a[1..]| :: a[1..][i] == a[i + 1] && a[0] != a[i + 1];
  }

  function Insert(x: string, s: seq<string>): seq<string> {
    if s == [] || Leq(x, s[0]) then [x] + s else [s[0]] + Insert(x, s[1..])
  }

  lemma {:induction false} InsertKeepsOrder(x: string, s: seq<string>)
    requires Ordered(s)
    ensures Ordered(Insert(x, s)) && multiset(Insert(x, s)) == multiset(s) + multiset{x}
    decreases |s|
  {
    if s != [] {
      assert s == [s[0]] + s[1..];
      if Leq(x, s[0]) {
        forall j | 0 <= j < |s|
          ensures Leq(x, s[j])
        {
          if j > 0 {
            LeqTransitive(x, s[0], s[j]);
          }
        }
      } else {
        var rest := Insert(x, s[1..]);
        InsertKeepsOrder(x, s[1..]);
        LeqTotal(x, s[0]);
        forall j | 0 <= j < |rest|
          ensures Leq(s[0], rest[j])
        {
          assert rest[j] in multiset(rest);
          assert rest[j] == x || rest[j] in s[1..];
        }
      }
    }
  }

  /** The library's string sort. */
  function Sort(s: seq<string>): seq<string> {
    if s == [] then [] else Insert(s[0], Sort(s[1..]))
  }

  lemma {:induction false} SortSorts(s: seq<string>)
    ensures Ordered(Sort(s)) && multiset(Sort(s)) == multiset(s)
  {
    if s != [] {
      SortSorts(s[1..]);
      InsertKeepsOrder(s[0], Sort(s[1..]));
      assert s == [s[0]] + s[1..];
    }
  }

  lemma SortDistinct(s: seq<string>)
    requires Distinct(s)
    ensures Ascending(Sort(s)) && Elements(Sort(s)) == Elements(s)
  {
    SortSorts(s);
    var r := Sort(s);
    forall x
      ensures x in r <==> x in s
    {
      assert x in multiset(r) <==> x in multiset(s);
    }
    forall i, j | 0 <= i < j < |r|
      ensures r[i] != r[j]
    {
      if r[i] == r[j] {
        TwiceCounts(r, i, j);
        OnceCounts(s, r[i]);
      }
    }
  }

  lemma TwiceCounts(s: seq<string>, i: nat, j: nat)
    requires i < j < |s| && s[i] == s[j]
    ensures multiset(s)[s[i]] >= 2
  {
    assert s == s[..j] + s[j..];
    assert s[..j][i] == s[i] && s[j..][0] == s[i];
    assert s[i] in multiset(s[..j]) && s[i] in multiset(s[j..]);
  }

  lemma {:induction false} OnceCounts(s: seq<string>, x: string)
    requires Distinct(s)
    ensures multiset(s)[x] <= 1
  {
    if s != [] {
      assert s == [s[0]] + s[1..];
      OnceCounts(s[1..], x);
      if x == s[0] {
        assert x !in multiset(s[1..]);
      }
    }
  }

  // ---- Lists that stand for sets and sequences -----------------------------------------

  ghost function Targets(p: Platform, values: seq<string>): set<string> {
    set v | v in values && !Blank(p, v) :: Trimmed(p, v)
  }

  lemma TargetsSnoc(p: Platform, values: seq<string>, v: string)
    ensures Targets(p, values + [v]) == Targets(p, values) + if Blank(p, v) then {} else {Trimmed(p, v)}
  {
    assert forall w :: w in values + [v] <==> w in values || w == v;
  }

  /** The result depends on nothing but the set of trimmed, non-blank values. */
  method SortedValues(p: Platform, values: seq<string>) returns (r: seq<string>)
    ensures Ascending(r) && Elements(r) == Targets(p, values)
  {
    var clean := DistinctValues(p, values);
    SortDistinct(clean);
    r := Sort(clean);
  }

  method DistinctValues(p: Platform, values: seq<string>) returns (clean: seq<string>)
    ensures Distinct(clean) && Elements(clean) == Targets(p, values)
  {
    var seen: set<string> := {};
    clean := [];
    for i := 0 to |values|
      invariant seen == Elements(clean) == Targets(p, values[..i])
      invariant Distinct(clean)
    {
      assert values[..i + 1] == values[..i] + [values[i]];
      TargetsSnoc(p, values[..i], values[i]);
      var value := Trimmed(p, values[i]);
      if value != "" && value !in seen {
        Snoc(clean, value);
        clean := clean + [value];
        seen := seen + {value};
      }
    }
    assert values[..|values|] == values;
  }

  predicate Tidy(p: Platform, v: string) {
    v != "" && Trimmed(p, v) == v
  }

  ghost predicate AllTidy(p: Platform, values: seq<string>) {
    forall i | 0 <= i < |values| :: Tidy(p, values[i])
  }

  /** The trimmed, non-blank values in their order. */
  function Clean(p: Platform, values: seq<string>): seq<string> {
    if values == [] then []
    else
      var front, last := Clean(p, values[..|values| - 1]), Trimmed(p, values[|values| - 1]);
      if last == "" then front else front + [last]
  }

  method CleanProfiles(p: Platform, values: seq<string>) returns (clean: seq<string>)
    ensures clean == Clean(p, values)
  {
    clean := [];
    for i := 0 to |values|
      invariant clean == Clean(p, values[..i])
    {
      assert values[..i + 1][..i] == values[..i];
      var value := Trimmed(p, values[i]);
      if value != "" {
        clean := clean + [value];
      }
    }
    assert values[..|values|] == values;
  }

  ghost predicate TrimsOnce(p: Platform) {
    forall s :: Trimmed(p, Trimmed(p, s)) == Trimmed(p, s)
  }

  lemma SoundTrimsOnce(p: Platform)
    requires SoundTrim(p)
    ensures TrimsOnce(p)
  {
    forall s
      ensures Trimmed(p, Trimmed(p, s)) == Trimmed(p, s)
    {
      TrimTwice(s, p.unicode.space);
    }
  }

  lemma {:induction false} CleanIsTidy(p: Platform, values: seq<string>)
    requires TrimsOnce(p)
    ensures AllTidy(p, Clean(p, values))
  {
    if values != [] {
      CleanIsTidy(p, values[..|values| - 1]);
    }
  }

  lemma CleanSnoc(p: Platform, front: seq<string>, v: string)
    requires Tidy(p, v)
    ensures Clean(p, front + [v]) == Clean(p, front) + [v]
  {
    assert (front + [v])[..|front|] == front;
  }

  lemma AllTidyFront(p: Platform, values: seq<string>)
    requires AllTidy(p, values) && values != []
    ensures AllTidy(p, values[..|values| - 1]) && Tidy(p, values[|values| - 1])
  {
  }

  lemma {:induction false} CleanFixes(p: Platform, values: seq<string>)
    requires AllTidy(p, values)
    ensures Clean(p, values) == values
  {
    if values != [] {
      var front := values[..|values| - 1];
      AllTidyFront(p, values);
      CleanFixes(p, front);
      CleanSnoc(p, front, values[|values| - 1]);
      assert values == front + [values[|values| - 1]];
    }
  }

  ghost function SortedSet(s: set<string>): (r: seq<string>)
    ensures Ascending(r) && Elements(r) == s
  {
    if s == {} then []
    else
      var x :| x in s;
      var rest := SortedSet(s - {x});
      InsertInto(x, rest);
      Insert(x, rest)
  }

  lemma InsertInto(x: string, s: seq<string>)
    requires Ascending(s) && x !in s
    ensures Ascending(Insert(x, s)) && Elements(Insert(x, s)) == Elements(s) + {x}
  {
    InsertKeepsOrder(x, s);
    var r := Insert(x, s);
    forall y
      ensures y in r <==> y in s || y == x
    {
      assert y in multiset(r) <==> y in multiset(s) + multiset{x};
    }
    forall i, j | 0 <= i < j < |r|
      ensures r[i] != r[j]
    {
      if r[i] == r[j] {
        TwiceCounts(r, i, j);
        OnceCounts(s, r[i]);
      }
    }
  }

  // ---- The selector --------------------------------------------------------------------

  function Pair(key: string, value: string): string {
    key + "=" + value
  }

  function Pairs(keys: seq<string>, selector: map<string, string>): (r: seq<string>)
    requires forall k | k in keys :: k in selector
    ensures |r| == |keys| && forall i | 0 <= i < |keys| :: r[i] == Pair(keys[i], selector[keys[i]])
  {
    seq(|keys|, i requires 0 <= i < |keys| => Pair(keys[i], selector[keys[i]]))
  }

  ghost function FormatOf(selector: map<string, string>): string {
    Join(Pairs(SortedSet(selector.Keys), selector), ',')
  }

  /** The keys in order, in whatever order they are met. */
  method SortedKeys(selector: map<string, string>) returns (keys: seq<string>)
    ensures keys == SortedSet(selector.Keys)
  {
    keys := [];
    var pending := selector.Keys;
    while pending != {}
      invariant pending <= selector.Keys && Elements(keys) == selector.Keys - pending
      invariant Distinct(keys)
      decreases |pending|
    {
      var key :| key in pending;
      Snoc(keys, key);
      keys := keys + [key];
      pending := pending - {key};
    }
    SortDistinct(keys);
    keys := Sort(keys);
    AscendingIsUnique(keys, SortedSet(selector.Keys));
  }

  method FormatSelector(selector: map<string, string>) returns (r: string)
    ensures r == FormatOf(selector)
  {
    var keys := SortedKeys(selector);
    assert forall k | k in keys :: k in Elements(keys);
    var parts: seq<string> := [];
    for i := 0 to |keys|
      invariant |parts| == i && forall j | 0 <= j < i :: parts[j] == Pair(keys[j], selector[keys[j]])
    {
      parts := parts + [Pair(keys[i], selector[keys[i]])];
    }
    assert parts == Pairs(keys, selector);
    r := Join(parts, ',');
  }

  /** Separators only where they separate: `=` not in a key, `,` nowhere. */
  ghost predicate PlainSelector(selector: map<string, string>) {
    forall k | k in selector :: '=' !in k && ',' !in k && ',' !in selector[k]
  }

  /** A selector can be read back from its text. */
  lemma FormatIsInjective(m: map<string, string>, n: map<string, string>)
    requires PlainSelector(m) && PlainSelector(n) && FormatOf(m) == FormatOf(n)
    ensures m == n
  {
    var ms, ns := SortedSet(m.Keys), SortedSet(n.Keys);
    PairsArePlain(m);
    PairsArePlain(n);
    JoinInjective(Pairs(ms, m), Pairs(ns, n), ',');
    forall i | 0 <= i < |ms|
      ensures ms[i] == ns[i] && m[ms[i]] == n[ns[i]]
    {
      assert ms[i] in Elements(ms) && ns[i] in Elements(ns);
      assert Pairs(ms, m)[i] == Pairs(ns, n)[i];
      SplitOnce(ms[i], m[ms[i]], ns[i], n[ns[i]], '=');
    }
    assert ms == ns;
    assert m.Keys == Elements(ms) == n.Keys;
    forall k | k in m
      ensures m[k] == n[k]
    {
      assert k in Elements(ms);
      var i :| 0 <= i < |ms| && ms[i] == k;
    }
  }

  lemma PairsArePlain(m: map<string, string>)
    requires PlainSelector(m)
    ensures forall s | s in Pairs(SortedSet(m.Keys), m) :: s != [] && ',' !in s
  {
    var keys := SortedSet(m.Keys);
    forall i | 0 <= i < |keys|
      ensures Pairs(keys, m)[i] != [] && ',' !in Pairs(keys, m)[i]
    {
      assert keys[i] in Elements(keys);
      PairIsPlain(keys[i], m[keys[i]]);
    }
  }

  lemma PairIsPlain(key: string, value: string)
    requires ',' !in key && ',' !in value
    ensures Pair(key, value) != [] && ',' !in Pair(key, value)
  {
  }

  /** Go ranges over a map in no fixed order, so the first fault found is not determined; that there
      is one, and which ones can be reported, is. */
  method ValidateSelector(p: Platform, selector: map<string, string>) returns (fault: Result)
    ensures fault.Ok? <==> CleanSelector(p, selector)
    ensures fault.Ok? ==> fault.children == []
    ensures fault.Err? ==> SelectorFault(p, selector, fault.problem)
  {
    var pending := selector.Keys;
    while pending != {}
      invariant pending <= selector.Keys
      invariant forall k | k in selector.Keys - pending :: !Blank(p, k) && !Blank(p, selector[k])
      decreases |pending|
    {
      var key :| key in pending;
      if Blank(p, key) {
        return Err(BlankKey);
      }
      if Blank(p, selector[key]) {
        return Err(BlankValue);
      }
      pending := pending - {key};
    }
    return Ok([]);
  }

  ghost predicate CleanSelector(p: Platform, selector: map<string, string>) {
    forall k | k in selector :: !Blank(p, k) && !Blank(p, selector[k])
  }

  ghost predicate SelectorFault(p: Platform, selector: map<string, string>, problem: Problem) {
    || (problem == BlankKey && exists k | k in selector :: Blank(p, k))
    || (problem == BlankValue && exists k | k in selector :: !Blank(p, k) && Blank(p, selector[k]))
  }

  // ---- Names of the children -----------------------------------------------------------

  function ScopeOf(p: Platform, scope: string): string {
    if Blank(p, scope) then "cluster" else "namespace:" + Trimmed(p, scope)
  }

  lemma ScopeIdentifies(p: Platform, a: string, b: string)
    ensures ScopeOf(p, a) == ScopeOf(p, b) <==> Trimmed(p, a) == Trimmed(p, b)
  {
    var x, y := "namespace:" + Trimmed(p, a), "namespace:" + Trimmed(p, b);
    assert x[|"namespace:"|..] == Trimmed(p, a) && y[|"namespace:"|..] == Trimmed(p, b);
    assert x[0] == y[0] == 'n' && "cluster"[0] == 'c';
  }

  lemma ScopeLacksSlash(p: Platform, scope: string)
    requires SoundTrim(p) && '/' !in scope
    ensures '/' !in ScopeOf(p, scope)
  {
    TrimLacks(scope, p.unicode.space, '/');
  }

  function Suffix(kind: Kind): string {
    if kind.DPUSet? then "dpuset" else "deployment"
  }

  function Identity(p: Platform, i: Intent): string {
    ScopeOf(p, i.scope) + "/" + i.name + "/" + i.uid
  }

  function HashInput(p: Platform, i: Intent, kind: Kind): string {
    Identity(p, i) + "/" + Suffix(kind)
  }

  function ChildName(p: Platform, i: Intent, kind: Kind): string {
    WithHash(p.safeName(i.name), p.hash(HashInput(p, i, kind)))
  }

  function WithHash(prefix: string, hash: string): string {
    var room := 63 - |hash| - 1;
    Names.TrimSuffixDash(if |prefix| > room >= 0 then prefix[..room] else prefix) + "-" + hash
  }

  ghost predicate SlashFree(i: Intent) {
    '/' !in i.scope && '/' !in i.name && '/' !in i.uid
  }

  lemma SplitTwice(a: string, x: string, r: string, b: string, y: string, t: string)
    requires a + "/" + x + "/" + r == b + "/" + y + "/" + t
    requires '/' !in a && '/' !in b && '/' !in x && '/' !in y
    ensures a == b && x == y && r == t
  {
    assert a + "/" + x + "/" + r == a + "/" + (x + "/" + r);
    assert b + "/" + y + "/" + t == b + "/" + (y + "/" + t);
    SplitOnce(a, x + "/" + r, b, y + "/" + t, '/');
    SplitOnce(x, r, y, t, '/');
  }

  lemma IdentityIsInjective(p: Platform, i: Intent, j: Intent)
    requires SoundTrim(p) && SlashFree(i) && SlashFree(j) && Identity(p, i) == Identity(p, j)
    ensures Trimmed(p, i.scope) == Trimmed(p, j.scope) && i.name == j.name && i.uid == j.uid
  {
    ScopeLacksSlash(p, i.scope);
    ScopeLacksSlash(p, j.scope);
    SplitTwice(ScopeOf(p, i.scope), i.name, i.uid, ScopeOf(p, j.scope), j.name, j.uid);
    ScopeIdentifies(p, i.scope, j.scope);
  }

  lemma SameEnd(a: string, x: string, b: string, y: string)
    requires a + x == b + y && |x| == |y|
    ensures a == b && x == y
  {
    assert (a + x)[..|a|] == a && (b + y)[..|b|] == b;
    assert (a + x)[|a|..] == x && (b + y)[|b|..] == y;
  }

  lemma SuffixEnd(a: string, k: Kind)
    ensures var s := a + "/" + Suffix(k); |s| >= 7 && (s[|s| - 7] == '/' <==> k.DPUSet?)
  {
    if k.DPUDeployment? {
      assert "deployment"[3] == 'l';
    }
  }

  /** The suffix is what follows the last slash, since neither suffix holds one. */
  lemma SuffixSplits(a: string, k: Kind, b: string, l: Kind)
    requires a + "/" + Suffix(k) == b + "/" + Suffix(l)
    ensures a == b && k == l
  {
    SuffixEnd(a, k);
    SuffixEnd(b, l);
    if k == l {
      assert a + ("/" + Suffix(k)) == a + "/" + Suffix(k);
      assert b + ("/" + Suffix(l)) == b + "/" + Suffix(l);
      SameEnd(a, "/" + Suffix(k), b, "/" + Suffix(l));
    }
  }

  /** A child name tells the intent and the kind apart: two names are equal exactly when scope, name,
      UID and kind are, provided the two hash inputs do not collide. */
  lemma ChildNameIdentifies(p: Platform, i: Intent, k: Kind, j: Intent, l: Kind)
    requires SoundTrim(p) && SoundHash(p) && SlashFree(i) && SlashFree(j)
    requires p.hash(HashInput(p, i, k)) == p.hash(HashInput(p, j, l)) ==> HashInput(p, i, k) == HashInput(p, j, l)
    ensures ChildName(p, i, k) == ChildName(p, j, l) <==>
            Trimmed(p, i.scope) == Trimmed(p, j.scope) && i.name == j.name && i.uid == j.uid && k == l
  {
    ScopeIdentifies(p, i.scope, j.scope);
    if ChildName(p, i, k) == ChildName(p, j, l) {
      NamesEndInHash(p, i, k, j, l);
      SuffixSplits(Identity(p, i), k, Identity(p, j), l);
      IdentityIsInjective(p, i, j);
    }
  }

  lemma SafeNameIsLabel(p: Platform, s: string)
    requires SoundNames(p)
    ensures Names.Label(p.safeName(s)) && Names.NoDoubleDash(p.safeName(s))
  {
    Names.SafeNameIsLabel(p.unicode, s);
  }

  lemma NamesEndInHash(p: Platform, i: Intent, k: Kind, j: Intent, l: Kind)
    requires SoundHash(p) && ChildName(p, i, k) == ChildName(p, j, l)
    ensures p.hash(HashInput(p, i, k)) == p.hash(HashInput(p, j, l))
  {
    var x, y := p.hash(HashInput(p, i, k)), p.hash(HashInput(p, j, l));
    assert Names.HexWord(x, 10) && Names.HexWord(y, 10);
    var n := ChildName(p, i, k);
    assert n[|n| - 10..] == x && n[|n| - 10..] == y;
  }

  /** A child name begins with as much of the cleaned intent's name as fits, less a dash at the cut, and ends in
      a dash and the hash. */
  lemma ChildNameBeginsWithItsIntent(p: Platform, i: Intent, kind: Kind)
    requires SoundHash(p)
    ensures var safe, hash := p.safeName(i.name), p.hash(HashInput(p, i, kind));
            ChildName(p, i, kind) == (if |safe| <= 52 then Names.TrimSuffixDash(safe)
                                      else if safe[51] == '-' then safe[..51] else safe[..52]) + "-" + hash
  {
    var safe := p.safeName(i.name);
    assert Names.HexWord(p.hash(HashInput(p, i, kind)), 10);
    if |safe| > 52 && safe[51] == '-' {
      assert safe[..52][..51] == safe[..51];
    }
  }

  /** A child name is a label for every intent, also when the prefix is cut at a dash. */
  lemma ChildNameIsLabel(p: Platform, i: Intent, kind: Kind)
    requires SoundHash(p) && SoundNames(p)
    ensures Names.Label(ChildName(p, i, kind)) && Names.NoDoubleDash(ChildName(p, i, kind))
  {
    SafeNameIsLabel(p, i.name);
    assert Names.HexWord(p.hash(HashInput(p, i, kind)), 10);
    WithHashIsLabel(p.safeName(i.name), p.hash(HashInput(p, i, kind)));
  }

  lemma WithHashIsLabel(prefix: string, hash: string)
    requires Names.Label(prefix) && Names.NoDoubleDash(prefix) && Names.HexWord(hash, 10)
    ensures Names.Label(WithHash(prefix, hash)) && Names.NoDoubleDash(WithHash(prefix, hash))
  {
    if |prefix| > 52 {
      Names.CutKeeps(prefix, 52);
      Names.Glue(Names.TrimSuffixDash(prefix[..52]), hash);
    } else {
      Names.Glue(prefix, hash);
    }
  }

  // ---- The translation -----------------------------------------------------------------

  function BaseLabels(p: Platform, i: Intent, targets: string): map<Key, string> {
    LabelsOf("opi-nvidia-adapter", p.safeName(i.sourceKind), p.hash(Identity(p, i)), p.hash(targets))
  }

  function LabelsOf(managedBy: string, sourceKind: string, sourceHash: string, targetHash: string): map<Key, string> {
    map[ManagedBy := managedBy, SourceKind := sourceKind, SourceHash := sourceHash, TargetSetHash := targetHash]
  }

  function BaseAnnotations(p: Platform, i: Intent, selector: string, targets: string): map<Key, string> {
    map[SourceKind := i.sourceKind,
        SourceScope := ScopeOf(p, i.scope),
        SourceName := i.name,
        SourceUid := i.uid,
        Profile := i.profile,
        Selector := selector,
        TargetIds := targets,
        TargetIdsHash := p.hash(targets)]
  }

  function DeploymentAnnotations(base: map<Key, string>, profiles: string): map<Key, string> {
    base[ServiceOrder := profiles][ServiceProfiles := profiles][RenderedBy := "DPUDeployment aggregate"]
  }

  function Namespace(dpfNamespace: string): string {
    if dpfNamespace == "" then "dpf-operator-system" else dpfNamespace
  }

  ghost function TargetText(p: Platform, i: Intent): string {
    Join(SortedSet(Targets(p, i.targetDeviceIds)), ',')
  }

  ghost function ProfileText(p: Platform, i: Intent): string {
    Join(Clean(p, i.serviceProfiles), ',')
  }

  ghost function Rendered(p: Platform, dpfNamespace: string, i: Intent): seq<Child> {
    var targets := TargetText(p, i);
    var ns, labels := Namespace(dpfNamespace), BaseLabels(p, i, targets);
    var annotations := BaseAnnotations(p, i, FormatOf(i.selector), targets);
    var dpuSet := Child(DPUSet, ns, ChildName(p, i, DPUSet), labels, annotations);
    if Clean(p, i.serviceProfiles) == [] then [dpuSet]
    else [dpuSet, Child(DPUDeployment, ns, ChildName(p, i, DPUDeployment), labels,
                        DeploymentAnnotations(annotations, ProfileText(p, i)))]
  }

  /** The checks in their order, and what is rendered when all of them pass. */
  ghost predicate Outcome(p: Platform, dpfNamespace: string, i: Intent, r: Result) {
    if Blank(p, i.name) then r == Err(NoName)
    else if Blank(p, i.sourceKind) then r == Err(NoKind)
    else if Blank(p, i.uid) then r == Err(NoUid)
    else if Blank(p, i.profile) then r == Err(NoProfile)
    else if Targets(p, i.targetDeviceIds) == {} then r == Err(NoTargets)
    else if i.selector == map[] then r == Err(NoSelector)
    else if !CleanSelector(p, i.selector) then r.Err? && SelectorFault(p, i.selector, r.problem)
    else r == Ok(Rendered(p, dpfNamespace, i))
  }

  method Translate(p: Platform, dpfNamespace: string, i: Intent) returns (r: Result)
    ensures Outcome(p, dpfNamespace, i, r)
  {
    if Blank(p, i.name) { return Err(NoName); }
    if Blank(p, i.sourceKind) { return Err(NoKind); }
    if Blank(p, i.uid) { return Err(NoUid); }
    if Blank(p, i.profile) { return Err(NoProfile); }
    var targetDeviceIds := SortedValues(p, i.targetDeviceIds);
    NoElements(targetDeviceIds);
    AscendingIsUnique(targetDeviceIds, SortedSet(Targets(p, i.targetDeviceIds)));
    if |targetDeviceIds| == 0 { return Err(NoTargets); }
    if |i.selector| == 0 { return Err(NoSelector); }
    var fault := ValidateSelector(p, i.selector);
    if fault.Err? { return fault; }

    var selector := FormatSelector(i.selector);
    var targets := Join(targetDeviceIds, ',');
    var labels := BaseLabels(p, i, targets);
    var annotations := BaseAnnotations(p, i, selector, targets);
    var children := [Child(DPUSet, Namespace(dpfNamespace), ChildName(p, i, DPUSet), labels, annotations)];
    var profiles := CleanProfiles(p, i.serviceProfiles);
    if |profiles| > 0 {
      children := children + [Child(DPUDeployment, Namespace(dpfNamespace), ChildName(p, i, DPUDeployment), labels,
                                    DeploymentAnnotations(annotations, Join(profiles, ',')))];
    }
    return Ok(children);
  }

  /** An intent is rendered exactly when name, source kind, UID and profile are not blank, some target device
      is not, and there is a selector with no blank key and no blank value. */
  lemma RenderedExactly(p: Platform, dpfNamespace: string, i: Intent, r: Result)
    requires Outcome(p, dpfNamespace, i, r)
    ensures r.Ok? <==>
              && p.trim(i.name) != "" && p.trim(i.sourceKind) != "" && p.trim(i.uid) != "" && p.trim(i.profile) != ""
              && (exists v :: v in i.targetDeviceIds && p.trim(v) != "")
              && i.selector != map[] && forall k | k in i.selector :: p.trim(k) != "" && p.trim(i.selector[k]) != ""
    ensures r.Ok? ==> r.children == Rendered(p, dpfNamespace, i)
  {
    if exists v :: v in i.targetDeviceIds && p.trim(v) != "" {
      var v :| v in i.targetDeviceIds && p.trim(v) != "";
      assert Trimmed(p, v) in Targets(p, i.targetDeviceIds);
    }
  }

  /** The namespace chosen by the caller, or the operator's own when none is. */
  ghost predicate InNamespace(dpfNamespace: string, c: Child) {
    c.ns == if dpfNamespace == "" then "dpf-operator-system" else dpfNamespace
  }

  ghost predicate CarriesLabels(p: Platform, i: Intent, targets: string, labels: map<Key, string>) {
    labels == map[ManagedBy := "opi-nvidia-adapter", SourceKind := p.safeName(i.sourceKind),
                  SourceHash := p.hash(ScopeOf(p, i.scope) + "/" + i.name + "/" + i.uid),
                  TargetSetHash := p.hash(targets)]
  }

  ghost predicate CarriesFields(p: Platform, i: Intent, targets: string, annotations: map<Key, string>) {
    annotations == map[SourceKind := i.sourceKind, SourceName := i.name, SourceUid := i.uid, Profile := i.profile,
                       SourceScope := if p.trim(i.scope) == "" then "cluster" else "namespace:" + p.trim(i.scope),
                       Selector := FormatOf(i.selector), TargetIds := targets, TargetIdsHash := p.hash(targets)]
  }

  lemma BaseCarriesTheIntent(p: Platform, i: Intent, targets: string)
    ensures CarriesLabels(p, i, targets, BaseLabels(p, i, targets))
    ensures CarriesFields(p, i, targets, BaseAnnotations(p, i, FormatOf(i.selector), targets))
  {
  }

  ghost predicate CarriesProfiles(base: map<Key, string>, profiles: string, annotations: map<Key, string>) {
    && annotations.Keys == base.Keys + {ServiceOrder, ServiceProfiles, RenderedBy}
    && annotations - {ServiceOrder, ServiceProfiles, RenderedBy} == base - {ServiceOrder, ServiceProfiles, RenderedBy}
    && annotations[ServiceOrder] == profiles && annotations[ServiceProfiles] == profiles
    && annotations[RenderedBy] == "DPUDeployment aggregate"
  }

  lemma DeploymentCarriesProfiles(base: map<Key, string>, profiles: string)
    ensures CarriesProfiles(base, profiles, DeploymentAnnotations(base, profiles))
  {
  }

  /** What the objects say: both are in the caller's namespace under the adapter's four labels, their
      annotations are the intent's fields, and the deployment adds the profiles in their order. */
  lemma RenderedCarriesTheIntent(p: Platform, dpfNamespace: string, i: Intent)
    ensures var r, targets := Rendered(p, dpfNamespace, i), TargetText(p, i);
            && 1 <= |r| <= 2 && (|r| == 2 <==> exists v :: v in i.serviceProfiles && p.trim(v) != "")
            && r[0].kind == DPUSet && InNamespace(dpfNamespace, r[0])
            && CarriesLabels(p, i, targets, r[0].labels) && CarriesFields(p, i, targets, r[0].annotations)
            && (|r| == 2 ==>
                  && r[1].kind == DPUDeployment && InNamespace(dpfNamespace, r[1]) && r[1].labels == r[0].labels
                  && CarriesProfiles(r[0].annotations, ProfileText(p, i), r[1].annotations))
  {
    BaseCarriesTheIntent(p, i, TargetText(p, i));
    DeploymentCarriesProfiles(BaseAnnotations(p, i, FormatOf(i.selector), TargetText(p, i)), ProfileText(p, i));
    CleanKeepsNonBlank(p, i.serviceProfiles);
  }

  lemma {:induction false} CleanKeepsNonBlank(p: Platform, values: seq<string>)
    ensures Clean(p, values) != [] <==> exists v :: v in values && p.trim(v) != ""
  {
    if values != [] {
      CleanKeepsNonBlank(p, values[..|values| - 1]);
      assert values == values[..|values| - 1] + [values[|values| - 1]];
    }
  }

  // ---- What an intent says -------------------------------------------------------------

  /** An intent without the order, padding, blanks and repetitions that carry no meaning. */
  ghost function Canonical(p: Platform, i: Intent): Intent {
    i.(scope := Trimmed(p, i.scope),
       serviceProfiles := Clean(p, i.serviceProfiles),
       targetDeviceIds := SortedSet(Targets(p, i.targetDeviceIds)))
  }

  lemma CanonicalTargets(p: Platform, values: seq<string>)
    requires TrimsOnce(p)
    ensures Targets(p, SortedSet(Targets(p, values))) == Targets(p, values)
  {
    var s := Targets(p, values);
    forall v | v in s
      ensures Trimmed(p, v) == v && v != ""
    {
      var w :| w in values && !Blank(p, w) && v == Trimmed(p, w);
    }
    forall v
      ensures v in SortedSet(s) <==> v in s
    {
      assert v in Elements(SortedSet(s)) <==> v in s;
    }
  }

  lemma CanonicalKeeps(p: Platform, i: Intent)
    requires SoundTrim(p)
    ensures Alike(p, i, Canonical(p, i))
  {
    SoundTrimsOnce(p);
    CanonicalTargets(p, i.targetDeviceIds);
    CleanIsTidy(p, i.serviceProfiles);
    CleanFixes(p, Clean(p, i.serviceProfiles));
  }

  /** Permuting, repeating or padding the target devices, padding the scope and adding blank profiles
      changes no outcome: not the objects and not the error. */
  lemma TranslationIsCanonical(p: Platform, dpfNamespace: string, i: Intent, r: Result)
    requires SoundTrim(p)
    ensures Outcome(p, dpfNamespace, i, r) <==> Outcome(p, dpfNamespace, Canonical(p, i), r)
  {
    CanonicalKeeps(p, i);
    RenderedAlike(p, dpfNamespace, i, Canonical(p, i));
    OutcomeAlike(p, dpfNamespace, i, Canonical(p, i), r);
  }

  ghost predicate Alike(p: Platform, i: Intent, j: Intent) {
    && i.name == j.name && i.sourceKind == j.sourceKind && i.uid == j.uid
    && i.selector == j.selector && i.profile == j.profile && ScopeOf(p, i.scope) == ScopeOf(p, j.scope)
    && Targets(p, i.targetDeviceIds) == Targets(p, j.targetDeviceIds)
    && Clean(p, i.serviceProfiles) == Clean(p, j.serviceProfiles)
  }

  lemma RenderedAlike(p: Platform, dpfNamespace: string, i: Intent, j: Intent)
    requires Alike(p, i, j)
    ensures Rendered(p, dpfNamespace, i) == Rendered(p, dpfNamespace, j)
  {
  }

  lemma OutcomeAlike(p: Platform, dpfNamespace: string, i: Intent, j: Intent, r: Result)
    requires Alike(p, i, j) && Rendered(p, dpfNamespace, i) == Rendered(p, dpfNamespace, j)
    ensures Outcome(p, dpfNamespace, i, r) <==> Outcome(p, dpfNamespace, j, r)
  {
  }

  ghost predicate Plain(p: Platform, i: Intent) {
    && PlainSelector(i.selector)
    && (forall v | v in Targets(p, i.targetDeviceIds) :: ',' !in v)
    && (forall v | v in Clean(p, i.serviceProfiles) :: ',' !in v)
  }

  /** The rendered objects lose nothing: intents render alike exactly when they say the same. */
  lemma TranslationIsFaithful(p: Platform, dpfNamespace: string, i: Intent, j: Intent)
    requires SoundTrim(p) && Plain(p, i) && Plain(p, j)
    ensures Rendered(p, dpfNamespace, i) == Rendered(p, dpfNamespace, j) <==> Canonical(p, i) == Canonical(p, j)
  {
    if Canonical(p, i) == Canonical(p, j) {
      CanonicalKeeps(p, i);
      CanonicalKeeps(p, j);
      RenderedAlike(p, dpfNamespace, i, j);
    } else if Rendered(p, dpfNamespace, i) == Rendered(p, dpfNamespace, j) {
      ReadBack(p, dpfNamespace, i, j);
      FormatIsInjective(i.selector, j.selector);
      ScopeIdentifies(p, i.scope, j.scope);
      TargetsReadBack(p, i, j);
      ProfilesReadBack(p, i, j);
    }
  }

  lemma BaseReadsBack(p: Platform, i: Intent, selector: string, targets: string, annotations: map<Key, string>)
    requires annotations == BaseAnnotations(p, i, selector, targets)
    ensures {SourceKind, SourceScope, SourceName, SourceUid, Profile, Selector, TargetIds} <= annotations.Keys
    ensures annotations[SourceKind] == i.sourceKind && annotations[SourceScope] == ScopeOf(p, i.scope)
    ensures annotations[SourceName] == i.name && annotations[SourceUid] == i.uid && annotations[Profile] == i.profile
    ensures annotations[Selector] == selector && annotations[TargetIds] == targets
  {
  }

  lemma ReadBack(p: Platform, dpfNamespace: string, i: Intent, j: Intent)
    requires Rendered(p, dpfNamespace, i) == Rendered(p, dpfNamespace, j)
    ensures i.name == j.name && i.sourceKind == j.sourceKind && i.uid == j.uid && i.profile == j.profile
    ensures ScopeOf(p, i.scope) == ScopeOf(p, j.scope) && FormatOf(i.selector) == FormatOf(j.selector)
    ensures TargetText(p, i) == TargetText(p, j)
    ensures (Clean(p, i.serviceProfiles) == []) == (Clean(p, j.serviceProfiles) == [])
    ensures Clean(p, i.serviceProfiles) != [] ==> ProfileText(p, i) == ProfileText(p, j)
  {
    var a, b := Rendered(p, dpfNamespace, i), Rendered(p, dpfNamespace, j);
    BaseReadsBack(p, i, FormatOf(i.selector), TargetText(p, i), a[0].annotations);
    BaseReadsBack(p, j, FormatOf(j.selector), TargetText(p, j), b[0].annotations);
    if |a| == 2 {
      assert a[1].annotations[ServiceOrder] == ProfileText(p, i);
    }
  }

  lemma TargetsReadBack(p: Platform, i: Intent, j: Intent)
    requires Plain(p, i) && Plain(p, j) && TargetText(p, i) == TargetText(p, j)
    ensures SortedSet(Targets(p, i.targetDeviceIds)) == SortedSet(Targets(p, j.targetDeviceIds))
  {
    var a, b := SortedSet(Targets(p, i.targetDeviceIds)), SortedSet(Targets(p, j.targetDeviceIds));
    assert forall v | v in a :: v in Elements(a);
    assert forall v | v in b :: v in Elements(b);
    JoinInjective(a, b, ',');
  }

  lemma ProfilesReadBack(p: Platform, i: Intent, j: Intent)
    requires SoundTrim(p) && Plain(p, i) && Plain(p, j)
    requires (Clean(p, i.serviceProfiles) == []) == (Clean(p, j.serviceProfiles) == [])
    requires Clean(p, i.serviceProfiles) != [] ==> ProfileText(p, i) == ProfileText(p, j)
    ensures Clean(p, i.serviceProfiles) == Clean(p, j.serviceProfiles)
  {
    if Clean(p, i.serviceProfiles) != [] {
      SoundTrimsOnce(p);
      CleanHasNoBlank(p, i.serviceProfiles);
      CleanHasNoBlank(p, j.serviceProfiles);
      JoinInjective(Clean(p, i.serviceProfiles), Clean(p, j.serviceProfiles), ',');
    }
  }

  lemma {:induction false} CleanHasNoBlank(p: Platform, values: seq<string>)
    ensures forall v | v in Clean(p, values) :: v != ""
  {
    if values != [] {
      CleanHasNoBlank(p, values[..|values| - 1]);
    }
  }

  /** Why commas are excluded: for any two devices, the one device whose ID is theirs joined by a comma
      renders like the two. */
  lemma CommasCollide(p: Platform, dpfNamespace: string, i: Intent, a: string, b: string)
    requires Tidy(p, a) && Tidy(p, b) && Tidy(p, a + "," + b) && Leq(a, b) && a != b
    ensures var one, two := i.(targetDeviceIds := [a + "," + b]), i.(targetDeviceIds := [b, a]);
            Rendered(p, dpfNamespace, one) == Rendered(p, dpfNamespace, two) && Canonical(p, one) != Canonical(p, two)
  {
    var joined := a + "," + b;
    var one, two := i.(targetDeviceIds := [joined]), i.(targetDeviceIds := [b, a]);
    TidyTargets(p, [joined]);
    TidyTargets(p, [b, a]);
    assert Elements([b, a]) == Elements([a, b]);
    AscendingIsUnique(SortedSet(Targets(p, [joined])), [joined]);
    AscendingIsUnique(SortedSet(Targets(p, [b, a])), [a, b]);
    JoinTwo(a, b);
    SameText(p, dpfNamespace, one, two);
  }

  lemma TidyTargets(p: Platform, values: seq<string>)
    requires AllTidy(p, values)
    ensures Targets(p, values) == Elements(values)
  {
    forall v | v in values
      ensures Tidy(p, v)
    {
      var i :| 0 <= i < |values| && values[i] == v;
    }
  }

  lemma JoinTwo(a: string, b: string)
    ensures Join([a + "," + b], ',') == Join([a, b], ',')
  {
    assert [a, b][1..] == [b];
  }

  lemma SameText(p: Platform, dpfNamespace: string, i: Intent, j: Intent)
    requires j == i.(targetDeviceIds := j.targetDeviceIds) && TargetText(p, i) == TargetText(p, j)
    ensures Rendered(p, dpfNamespace, i) == Rendered(p, dpfNamespace, j)
  {
  }

  /** Why `=` is excluded from selector keys: moving it from a key to the value gives the same text. */
  lemma EqualsCollide(k: string, x: string, v: string)
    ensures FormatOf(map[k + "=" + x := v]) == FormatOf(map[k := x + "=" + v])
    ensures map[k + "=" + x := v] != map[k := x + "=" + v]
  {
    OnePair(k + "=" + x, v);
    OnePair(k, x + "=" + v);
    assert k + "=" + x + "=" + v == k + "=" + (x + "=" + v);
    assert k + "=" + x != k;
    assert k in map[k := x + "=" + v] && k !in map[k + "=" + x := v];
  }

  lemma OnePair(k: string, v: string)
    ensures FormatOf(map[k := v]) == k + "=" + v
  {
    var m := map[k := v];
    assert m.Keys == Elements([k]);
    AscendingIsUnique(SortedSet(m.Keys), [k]);
    assert Pairs([k], m) == [Pair(k, v)];
  }

  ghost predicate ValidChild(c: Child) {
    Names.Label(c.name) && c.ns != "" && AllLabels(c.labels)
  }

  /** Every object name and every label value is a label, and the two objects are of the two kinds. */
  lemma RenderedIsValid(p: Platform, dpfNamespace: string, i: Intent)
    requires SoundHash(p) && SoundNames(p)
    ensures var r := Rendered(p, dpfNamespace, i);
            && (forall n | 0 <= n < |r| :: ValidChild(r[n]))
            && |r| == (if Clean(p, i.serviceProfiles) == [] then 1 else 2) && r[0].kind == DPUSet
            && (|r| == 2 ==> r[1].kind == DPUDeployment)
  {
    RenderedShape(p, dpfNamespace, i);
    LabelsAreValid(p, i, TargetText(p, i));
    ChildrenAreValid(p, i, BaseLabels(p, i, TargetText(p, i)), Rendered(p, dpfNamespace, i));
  }

  lemma RenderedShape(p: Platform, dpfNamespace: string, i: Intent)
    ensures forall n | 0 <= n < |Rendered(p, dpfNamespace, i)| ::
              HasParts(p, i, BaseLabels(p, i, TargetText(p, i)), Rendered(p, dpfNamespace, i)[n])
  {
  }

  ghost predicate HasParts(p: Platform, i: Intent, labels: map<Key, string>, c: Child) {
    c.name == ChildName(p, i, c.kind) && c.ns != "" && c.labels == labels
  }

  lemma ChildrenAreValid(p: Platform, i: Intent, labels: map<Key, string>, r: seq<Child>)
    requires SoundHash(p) && SoundNames(p) && AllLabels(labels)
    requires forall n | 0 <= n < |r| :: HasParts(p, i, labels, r[n])
    ensures forall n | 0 <= n < |r| :: ValidChild(r[n])
  {
    forall n | 0 <= n < |r|
      ensures ValidChild(r[n])
    {
      assert HasParts(p, i, labels, r[n]);
      ChildNameIsLabel(p, i, r[n].kind);
    }
  }

  ghost predicate AllLabels(m: map<Key, string>) {
    forall k | k in m :: Names.Label(m[k])
  }

  lemma LabelsAreValid(p: Platform, i: Intent, targets: string)
    requires SoundHash(p) && SoundNames(p)
    ensures AllLabels(BaseLabels(p, i, targets))
  {
    SafeNameIsLabel(p, i.sourceKind);
    HashIsLabel(p, Identity(p, i));
    HashIsLabel(p, targets);
    ManagerIsLabel("opi-nvidia-adapter");
    LabelsOfLabels("opi-nvidia-adapter", p.safeName(i.sourceKind), p.hash(Identity(p, i)), p.hash(targets));
  }

  /** The two hash labels are as good as what they stand for: the source hash tells scope, name and
      UID apart, the target-set hash tells sets of devices apart, when neither pair of inputs
      collides. */
  lemma LabelsIdentify(p: Platform, i: Intent, j: Intent, a: map<Key, string>, b: map<Key, string>)
    requires SoundTrim(p) && SlashFree(i) && SlashFree(j) && Plain(p, i) && Plain(p, j)
    requires a == BaseLabels(p, i, TargetText(p, i)) && b == BaseLabels(p, j, TargetText(p, j))
    requires p.hash(Identity(p, i)) == p.hash(Identity(p, j)) ==> Identity(p, i) == Identity(p, j)
    requires p.hash(TargetText(p, i)) == p.hash(TargetText(p, j)) ==> TargetText(p, i) == TargetText(p, j)
    ensures {SourceHash, TargetSetHash} <= a.Keys && {SourceHash, TargetSetHash} <= b.Keys
    ensures a[SourceHash] == b[SourceHash] <==>
              Trimmed(p, i.scope) == Trimmed(p, j.scope) && i.name == j.name && i.uid == j.uid
    ensures a[TargetSetHash] == b[TargetSetHash] <==> Targets(p, i.targetDeviceIds) == Targets(p, j.targetDeviceIds)
  {
    HashLabels(p, i, a);
    HashLabels(p, j, b);
    IdentityIdentifies(p, i, j);
    TextIdentifies(p, i, j);
  }

  lemma HashLabels(p: Platform, i: Intent, a: map<Key, string>)
    requires a == BaseLabels(p, i, TargetText(p, i))
    ensures {SourceHash, TargetSetHash} <= a.Keys
    ensures a[SourceHash] == p.hash(Identity(p, i)) && a[TargetSetHash] == p.hash(TargetText(p, i))
  {
  }

  lemma IdentityIdentifies(p: Platform, i: Intent, j: Intent)
    requires SoundTrim(p) && SlashFree(i) && SlashFree(j)
    ensures Identity(p, i) == Identity(p, j) <==>
            Trimmed(p, i.scope) == Trimmed(p, j.scope) && i.name == j.name && i.uid == j.uid
  {
    ScopeIdentifies(p, i.scope, j.scope);
    if Identity(p, i) == Identity(p, j) {
      IdentityIsInjective(p, i, j);
    }
  }

  lemma TextIdentifies(p: Platform, i: Intent, j: Intent)
    requires Plain(p, i) && Plain(p, j)
    ensures TargetText(p, i) == TargetText(p, j) <==> Targets(p, i.targetDeviceIds) == Targets(p, j.targetDeviceIds)
  {
    if TargetText(p, i) == TargetText(p, j) {
      TargetsReadBack(p, i, j);
      assert Elements(SortedSet(Targets(p, i.targetDeviceIds))) == Elements(SortedSet(Targets(p, j.targetDeviceIds)));
    }
  }

  lemma ManagerIsLabel(s: string)
    requires s == "opi-nvidia-adapter"
    ensures Names.Label(s)
  {
  }

  lemma LabelsOfLabels(managedBy: string, sourceKind: string, sourceHash: string, targetHash: string)
    requires Names.Label(managedBy) && Names.Label(sourceKind) && Names.Label(sourceHash) && Names.Label(targetHash)
    ensures AllLabels(LabelsOf(managedBy, sourceKind, sourceHash, targetHash))
  {
  }

  lemma HashIsLabel(p: Platform, s: string)
    requires SoundHash(p) && SoundNames(p)
    ensures Names.Label(p.hash(s))
  {
    assert Names.HexWord(p.hash(s), 10);
  }
}
