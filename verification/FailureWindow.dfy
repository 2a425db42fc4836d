/** The failure-window bookkeeping of the status aggregator: three per-key maps that must agree with
    the history of probes. Times are nanoseconds of a clock that does not run backwards. */
module FailureWindow {

  datatype Key = Key(namespace: string, name: string)

  const FAILURE_THRESHOLD := 3
  const PROBE_WINDOW := 90_000_000_000

  /** What one reconcile meets: the endpoint (None when it cannot be read), whether the probe
      succeeds, and the two readings of the clock after a failed probe. */
  datatype Probe = Probe(key: Key, endpoint: Endpoint, ok: bool, started: int, judged: int)

  datatype Endpoint = Unreadable | At(address: string)

  /** The three maps. A missing failure count reads as zero. */
  datatype Books = Books(endpoints: map<Key, string>, failures: map<Key, nat>, windows: map<Key, int>)

  function FailuresOf(b: Books, k: Key): nat {
    if k in b.failures then b.failures[k] else 0
  }

  function Counted(b: Books, p: Probe): nat
    requires p.endpoint.At?
  {
    1 + if p.key in b.endpoints && b.endpoints[p.key] != p.endpoint.address then 0 else FailuresOf(b, p.key)
  }

  function WindowStart(b: Books, p: Probe): int {
    if p.key in b.windows then b.windows[p.key] else p.started
  }

  /** The failed probe that downgrades Unknown to False. */
  predicate Downgrades(b: Books, p: Probe) {
    && p.endpoint.At? && !p.ok
    && Counted(b, p) >= FAILURE_THRESHOLD
    && p.judged - WindowStart(b, p) > PROBE_WINDOW
  }

  function After(b: Books, p: Probe): Books {
    if p.endpoint.Unreadable? then b
    else
      var endpoints := b.endpoints[p.key := p.endpoint.address];
      if p.ok || Downgrades(b, p) then Books(endpoints, b.failures[p.key := 0], b.windows - {p.key})
      else Books(endpoints, b.failures[p.key := Counted(b, p)], b.windows[p.key := WindowStart(b, p)])
  }

  datatype Result = ReadError | RequeueAfter(seconds: nat)

  class StatusAggregator {
    var lastKnownEndpoint: map<Key, string>
    var consecutiveFailures: map<Key, nat>
    var windowStart: map<Key, int>

    function View(): Books
      reads this
    {
      Books(lastKnownEndpoint, consecutiveFailures, windowStart)
    }

    constructor ()
      ensures View() == Books(map[], map[], map[])
    {
      lastKnownEndpoint, consecutiveFailures, windowStart := map[], map[], map[];
    }

    method Reconcile(p: Probe) returns (result: Result, downgraded: bool)
      modifies this
      ensures View() == After(old(View()), p)
      ensures downgraded == Downgrades(old(View()), p)
      ensures result == if p.endpoint.Unreadable? then ReadError else RequeueAfter(if p.ok then 60 else 30)
    {
      var k := p.key;
      downgraded := false;
      if p.endpoint.Unreadable? {
        return ReadError, false;
      }
      var current := p.endpoint.address;
      if k in lastKnownEndpoint && lastKnownEndpoint[k] != current {
        consecutiveFailures := consecutiveFailures[k := 0];
      }
      lastKnownEndpoint := lastKnownEndpoint[k := current];
      if !p.ok {
        consecutiveFailures := consecutiveFailures[k := 1 + if k in consecutiveFailures
                                                            then consecutiveFailures[k] else 0];
        if k !in windowStart {
          windowStart := windowStart[k := p.started];
        }
        var windowElapsed := p.judged - windowStart[k] > PROBE_WINDOW;
        if consecutiveFailures[k] >= FAILURE_THRESHOLD && windowElapsed {
          consecutiveFailures := consecutiveFailures[k := 0];
          windowStart := windowStart - {k};
          downgraded := true;
        }
        return RequeueAfter(30), downgraded;
      }
      consecutiveFailures := consecutiveFailures[k := 0];
      windowStart := windowStart - {k};
      result := RequeueAfter(60);
    }
  }

  // ---- Runs ----------------------------------------------------------------------------

  function Run(probes: seq<Probe>): Books {
    if probes == [] then Books(map[], map[], map[])
    else After(Run(probes[..|probes| - 1]), probes[|probes| - 1])
  }

  /** The clock never runs backwards, within a probe or between probes. */
  ghost predicate Timed(probes: seq<Probe>) {
    && (forall i | 0 <= i < |probes| :: probes[i].started <= probes[i].judged)
    && (forall i, j | 0 <= i < j < |probes| :: probes[i].judged <= probes[j].started)
  }

  /** The i-th probe reached the tenant cluster's service for key k, and failed. */
  predicate FailedAt(probes: seq<Probe>, k: Key, i: int) {
    0 <= i < |probes| && probes[i].key == k && probes[i].endpoint.At? && !probes[i].ok
  }

  predicate ReadAt(probes: seq<Probe>, k: Key, i: int) {
    0 <= i < |probes| && probes[i].key == k && probes[i].endpoint.At?
  }

  /** The i-th probe found another endpoint than the probe before it that could read one. */
  ghost predicate MovedAt(probes: seq<Probe>, k: Key, i: int) {
    && ReadAt(probes, k, i)
    && exists j :: LastReadBefore(probes, k, i, j) && probes[j].endpoint != probes[i].endpoint
  }

  ghost predicate LastReadBefore(probes: seq<Probe>, k: Key, i: int, j: int) {
    ReadAt(probes, k, j) && j < i && forall m | j < m < i :: !ReadAt(probes, k, m)
  }

  predicate DowngradedAt(probes: seq<Probe>, k: Key, i: int) {
    0 <= i < |probes| && probes[i].key == k && Downgrades(Run(probes[..i]), probes[i])
  }

  /** After the i-th probe the failure history of k starts afresh. */
  predicate ClearedAt(probes: seq<Probe>, k: Key, i: int) {
    (ReadAt(probes, k, i) && probes[i].ok) || DowngradedAt(probes, k, i)
  }

  /** Failed probes of k at indices from..to. */
  function FailedBetween(probes: seq<Probe>, k: Key, from: nat, end: nat): nat
    requires from <= end <= |probes|
    decreases end
  {
    if from == end then 0 else FailedBetween(probes, k, from, end - 1) + if FailedAt(probes, k, end - 1) then 1 else 0
  }

  function DowngradesOf(probes: seq<Probe>, k: Key): nat {
    if probes == [] then 0
    else DowngradesOf(probes[..|probes| - 1], k) + if DowngradedAt(probes, k, |probes| - 1) then 1 else 0
  }

  // ---- The count -----------------------------------------------------------------------

  /** `from` is where the present run of failures of k begins: right after the last success or
      downgrade, or at the last endpoint change if that came later. */
  ghost predicate RunBegins(probes: seq<Probe>, k: Key, from: int) {
    && 0 <= from <= |probes|
    && (from > 0 ==> ClearedAt(probes, k, from - 1) || (from < |probes| && MovedAt(probes, k, from)))
    && (forall i | from <= i < |probes| :: !ClearedAt(probes, k, i))
    && (forall i | from < i < |probes| :: !MovedAt(probes, k, i))
  }

  lemma SameReads(a: seq<Probe>, b: seq<Probe>, k: Key, i: int, j: int)
    requires forall m | m < i :: ReadAt(a, k, m) == ReadAt(b, k, m)
    ensures LastReadBefore(a, k, i, j) == LastReadBefore(b, k, i, j)
  {
  }

  /** What was said about a prefix still holds of the whole. */
  lemma PrefixAgrees(probes: seq<Probe>, n: nat, k: Key)
    requires n <= |probes|
    ensures forall i | i < n :: ReadAt(probes[..n], k, i) == ReadAt(probes, k, i)
    ensures forall i | i < n :: FailedAt(probes[..n], k, i) == FailedAt(probes, k, i)
    ensures forall i | i < n :: DowngradedAt(probes[..n], k, i) == DowngradedAt(probes, k, i)
    ensures forall i | i < n :: ClearedAt(probes[..n], k, i) == ClearedAt(probes, k, i)
    ensures forall i | i < n :: MovedAt(probes[..n], k, i) == MovedAt(probes, k, i)
  {
    var front := probes[..n];
    forall i | 0 <= i < n
      ensures front[..i] == probes[..i]
    {
    }
    assert forall m | m < n :: ReadAt(front, k, m) == ReadAt(probes, k, m);
    forall i, j | i < n
      ensures LastReadBefore(front, k, i, j) == LastReadBefore(probes, k, i, j)
    {
      SameReads(front, probes, k, i, j);
    }
    forall i | i < n
      ensures MovedAt(front, k, i) == MovedAt(probes, k, i)
    {
      if MovedAt(front, k, i) {
        var j :| LastReadBefore(front, k, i, j) && front[j].endpoint != front[i].endpoint;
        assert LastReadBefore(probes, k, i, j) && probes[j].endpoint != probes[i].endpoint;
      }
      if MovedAt(probes, k, i) {
        var j :| LastReadBefore(probes, k, i, j) && probes[j].endpoint != probes[i].endpoint;
        assert LastReadBefore(front, k, i, j) && front[j].endpoint != front[i].endpoint;
      }
    }
  }

  lemma {:induction false} FailedBetweenPrefix(probes: seq<Probe>, n: nat, k: Key, from: nat, end: nat)
    requires from <= end <= n <= |probes|
    ensures FailedBetween(probes[..n], k, from, end) == FailedBetween(probes, k, from, end)
    decreases end
  {
    if from < end {
      FailedBetweenPrefix(probes, n, k, from, end - 1);
    }
  }

  /** The stored endpoint is the one read last. */
  lemma {:induction false} EndpointIsLastRead(probes: seq<Probe>, k: Key)
    ensures k in Run(probes).endpoints <==> exists j :: LastReadBefore(probes, k, |probes|, j)
    ensures forall j | LastReadBefore(probes, k, |probes|, j) ::
              k in Run(probes).endpoints && probes[j].endpoint == At(Run(probes).endpoints[k])
  {
    if probes != [] {
      var n := |probes| - 1;
      var front := probes[..n];
      EndpointIsLastRead(front, k);
      PrefixAgrees(probes, n, k);
      if ReadAt(probes, k, n) {
        assert LastReadBefore(probes, k, |probes|, n);
      } else {
        forall j
          ensures LastReadBefore(front, k, n, j) == LastReadBefore(probes, k, |probes|, j)
        {
        }
      }
    }
  }

  lemma MovedMeansReset(probes: seq<Probe>, k: Key)
    requires probes != [] && ReadAt(probes, k, |probes| - 1)
    ensures var b := Run(probes[..|probes| - 1]);
            MovedAt(probes, k, |probes| - 1) <==>
              k in b.endpoints && b.endpoints[k] != probes[|probes| - 1].endpoint.address
  {
    var n := |probes| - 1;
    var front := probes[..n];
    EndpointIsLastRead(front, k);
    PrefixAgrees(probes, n, k);
    forall j
      ensures LastReadBefore(front, k, n, j) == LastReadBefore(probes, k, n, j)
    {
      SameReads(front, probes, k, n, j);
    }
  }

  lemma CountAfterProbe(probes: seq<Probe>, k: Key)
    requires probes != []
    ensures var n := |probes| - 1;
            var before := FailuresOf(Run(probes[..n]), k);
            FailuresOf(Run(probes), k)
            == if !ReadAt(probes, k, n) then before
               else if ClearedAt(probes, k, n) then 0
               else (if MovedAt(probes, k, n) then 0 else before) + 1
  {
    if ReadAt(probes, k, |probes| - 1) {
      MovedMeansReset(probes, k);
    }
  }

  lemma {:induction false} PresentRun(probes: seq<Probe>, k: Key) returns (from: nat)
    ensures RunBegins(probes, k, from)
    ensures FailuresOf(Run(probes), k) == FailedBetween(probes, k, from, |probes|)
  {
    if probes == [] {
      from := 0;
    } else {
      var n := |probes| - 1;
      from := PresentRun(probes[..n], k);
      PrefixAgrees(probes, n, k);
      FailedBetweenPrefix(probes, n, k, from, n);
      CountAfterProbe(probes, k);
      if ClearedAt(probes, k, n) {
        from := n + 1;
      } else if MovedAt(probes, k, n) {
        from := n;
        assert FailedBetween(probes, k, n, n) == 0;
      }
    }
  }

  lemma RunBeginsOnce(probes: seq<Probe>, k: Key, a: int, b: int)
    requires RunBegins(probes, k, a) && RunBegins(probes, k, b)
    ensures a == b
  {
    assert forall c | c == a || c == b :: c > 0 ==> ClearedAt(probes, k, c - 1) || MovedAt(probes, k, c);
  }

  /** The counter is the number of failed probes in the present run of failures: those since the last
      success or downgrade, or since the last endpoint change, the change included. There is only
      one place where that run can begin. */
  lemma CountMatchesHistory(probes: seq<Probe>, k: Key)
    ensures exists from :: RunBegins(probes, k, from)
    ensures forall from | RunBegins(probes, k, from) ::
              FailuresOf(Run(probes), k) == FailedBetween(probes, k, from, |probes|)
  {
    var begun := PresentRun(probes, k);
    forall from | RunBegins(probes, k, from)
      ensures from == begun
    {
      RunBeginsOnce(probes, k, from, begun);
    }
  }

  // ---- The window ----------------------------------------------------------------------

  /** The failed probe that opened the present window: nothing has been cleared since, and every
      earlier failure was cleared before it. Endpoint changes play no part. */
  ghost predicate OpensWindow(probes: seq<Probe>, k: Key, i: int) {
    && FailedAt(probes, k, i)
    && (forall j | i <= j < |probes| :: !ClearedAt(probes, k, j))
    && (forall j | 0 <= j < i && FailedAt(probes, k, j) :: ClearedWithin(probes, k, j, i))
  }

  ghost predicate ClearedWithin(probes: seq<Probe>, k: Key, from: int, end: int) {
    exists m | from <= m < end :: ClearedAt(probes, k, m)
  }

  /** The stored window start is the time of the failure that opened the window, and there is none
      exactly when every failure so far has been cleared. */
  lemma {:induction false} WindowMatchesHistory(probes: seq<Probe>, k: Key)
    ensures k in Run(probes).windows ==>
              exists i :: OpensWindow(probes, k, i) && Run(probes).windows[k] == probes[i].started
    ensures k !in Run(probes).windows ==>
              forall i | FailedAt(probes, k, i) :: ClearedWithin(probes, k, i, |probes|)
  {
    if probes != [] {
      var n := |probes| - 1;
      var front := probes[..n];
      WindowMatchesHistory(front, k);
      PrefixAgrees(probes, n, k);
      forall i, j | j <= n && ClearedWithin(front, k, i, j)
        ensures ClearedWithin(probes, k, i, j)
      {
        var m :| i <= m < j && ClearedAt(front, k, m);
        assert ClearedAt(probes, k, m);
      }
      if ReadAt(probes, k, n) && ClearedAt(probes, k, n) {
        forall i | FailedAt(probes, k, i)
          ensures ClearedWithin(probes, k, i, n + 1)
        {
        }
      } else if k in Run(front).windows {
        var i :| OpensWindow(front, k, i) && Run(front).windows[k] == front[i].started;
        assert OpensWindow(probes, k, i);
      } else if FailedAt(probes, k, n) {
        assert OpensWindow(probes, k, n);
      } else {
        forall i | FailedAt(probes, k, i)
          ensures ClearedWithin(probes, k, i, n + 1)
        {
          assert FailedAt(front, k, i);
          var m :| i <= m < n && ClearedAt(front, k, m);
          assert ClearedAt(probes, k, m);
        }
      }
    }
  }

  // ---- When a downgrade happens --------------------------------------------------------

  /** The run of failures that the failed n-th probe belongs to begins at `from`. */
  ghost predicate RunOf(probes: seq<Probe>, k: Key, n: nat, from: int) {
    && FailedAt(probes, k, n) && 0 <= from <= n
    && (from > 0 ==> ClearedAt(probes, k, from - 1) || MovedAt(probes, k, from))
    && (forall i | from <= i < n :: !ClearedAt(probes, k, i))
    && (forall i | from < i <= n :: !MovedAt(probes, k, i))
  }

  /** The window that is open at the failed n-th probe was opened by the i-th, perhaps by the n-th itself. */
  ghost predicate WindowOf(probes: seq<Probe>, k: Key, n: nat, i: int) {
    && FailedAt(probes, k, n) && FailedAt(probes, k, i) && i <= n
    && (forall j | i <= j < n :: !ClearedAt(probes, k, j))
    && (forall j | 0 <= j < i && FailedAt(probes, k, j) :: ClearedWithin(probes, k, j, i))
  }

  lemma CountOfRun(probes: seq<Probe>, k: Key, n: nat) returns (from: nat)
    requires n < |probes| && FailedAt(probes, k, n)
    ensures RunOf(probes, k, n, from)
    ensures Counted(Run(probes[..n]), probes[n]) == FailedBetween(probes, k, from, n + 1)
  {
    var begun := PresentRun(probes[..n], k);
    RunContinues(probes, k, n, begun);
    CountContinues(probes, k, n);
    FailedBetweenPrefix(probes, n, k, begun, n);
    from := if MovedAt(probes, k, n) then n else begun;
    assert FailedBetween(probes, k, n, n) == 0;
  }

  lemma RunContinues(probes: seq<Probe>, k: Key, n: nat, begun: nat)
    requires n < |probes| && FailedAt(probes, k, n) && RunBegins(probes[..n], k, begun)
    ensures RunOf(probes, k, n, if MovedAt(probes, k, n) then n else begun)
  {
    PrefixAgrees(probes, n, k);
  }

  lemma CountContinues(probes: seq<Probe>, k: Key, n: nat)
    requires n < |probes| && FailedAt(probes, k, n)
    ensures Counted(Run(probes[..n]), probes[n])
         == 1 + if MovedAt(probes, k, n) then 0 else FailuresOf(Run(probes[..n]), k)
  {
    var upTo := probes[..n + 1];
    assert upTo[..n] == probes[..n] && ReadAt(upTo, k, n);
    MovedMeansReset(upTo, k);
    PrefixAgrees(probes, n + 1, k);
  }

  lemma StartOfWindow(probes: seq<Probe>, k: Key, n: nat) returns (i: int)
    requires n < |probes| && FailedAt(probes, k, n)
    ensures WindowOf(probes, k, n, i) && WindowStart(Run(probes[..n]), probes[n]) == probes[i].started
  {
    var front := probes[..n];
    WindowMatchesHistory(front, k);
    PrefixAgrees(probes, n, k);
    forall j, m | m <= n && ClearedWithin(front, k, j, m)
      ensures ClearedWithin(probes, k, j, m)
    {
      var c :| j <= c < m && ClearedAt(front, k, c);
      assert ClearedAt(probes, k, c);
    }
    if k in Run(front).windows {
      i :| OpensWindow(front, k, i) && Run(front).windows[k] == front[i].started;
    } else {
      i := n;
    }
  }

  lemma RunsAndWindowsAreUnique(probes: seq<Probe>, k: Key, n: nat, a: int, b: int)
    ensures RunOf(probes, k, n, a) && RunOf(probes, k, n, b) ==> a == b
    ensures WindowOf(probes, k, n, a) && WindowOf(probes, k, n, b) ==> a == b
  {
    assert forall c | c == a || c == b :: RunOf(probes, k, n, c) && c > 0 ==>
                                          ClearedAt(probes, k, c - 1) || MovedAt(probes, k, c);
  }

  /** A probe downgrades exactly when it failed, the failures of its run, itself included, are at least
      three, and more than ninety seconds have passed since the failure that opened the window. A failed
      probe belongs to exactly one run and has exactly one window. */
  lemma DowngradedExactly(probes: seq<Probe>, k: Key, n: nat)
    requires n < |probes| && probes[n].key == k
    ensures DowngradedAt(probes, k, n) ==> FailedAt(probes, k, n)
    ensures FailedAt(probes, k, n) ==> exists from, i :: RunOf(probes, k, n, from) && WindowOf(probes, k, n, i)
    ensures forall from: nat, i | RunOf(probes, k, n, from) && WindowOf(probes, k, n, i) ::
              DowngradedAt(probes, k, n) <==>
                FailedBetween(probes, k, from, n + 1) >= 3 && probes[n].judged - probes[i].started > 90_000_000_000
  {
    if FailedAt(probes, k, n) {
      var from := CountOfRun(probes, k, n);
      var i := StartOfWindow(probes, k, n);
      forall a, b
        ensures RunOf(probes, k, n, a) && RunOf(probes, k, n, b) ==> a == b
        ensures WindowOf(probes, k, n, a) && WindowOf(probes, k, n, b) ==> a == b
      {
        RunsAndWindowsAreUnique(probes, k, n, a, b);
      }
    }
  }

  /** A new endpoint does inherit the old one's window, though not its count: after a failed probe that
      found another endpoint and downgraded nothing, the count is 1, and the window starts before that
      probe exactly when one was open. */
  lemma EndpointInheritsWindow(probes: seq<Probe>, k: Key)
    requires probes != []
    requires var n := |probes| - 1; MovedAt(probes, k, n) && FailedAt(probes, k, n)
    ensures var n := |probes| - 1;
            var before, after := Run(probes[..n]), Run(probes);
            && !DowngradedAt(probes, k, n) && FailuresOf(after, k) == 1 && k in after.windows
            && after.windows[k] == if k in before.windows then before.windows[k] else probes[n].started
  {
    MovedMeansReset(probes, k);
  }

  function Failed(k: Key, address: string, at: int): Probe {
    Probe(k, At(address), false, at, at)
  }

  /** So a new endpoint can be downgraded at once: three failures in the same instant are enough when the
      old endpoint's last failure is more than a window ago. */
  lemma DowngradedAtOnce(k: Key, a: string, b: string, start: int, now: int)
    requires a != b && now - start > PROBE_WINDOW
    ensures var probes := [Failed(k, a, start), Failed(k, b, now), Failed(k, b, now), Failed(k, b, now)];
            && Timed(probes) && MovedAt(probes, k, 1) && DowngradedAt(probes, k, 3)
  {
    var probes := [Failed(k, a, start), Failed(k, b, now), Failed(k, b, now), Failed(k, b, now)];
    assert LastReadBefore(probes, k, 1, 0);
    var one := Books(map[k := a], map[k := 1], map[k := start]);
    AfterOne(probes[..1], Failed(k, a, start), k, a, start);
    assert probes[..2][..1] == probes[..1] && probes[..3][..2] == probes[..2];
    assert Run(probes[..1]) == one;
    assert Run(probes[..2]) == Books(map[k := b], map[k := 1], map[k := start]);
    assert Run(probes[..3]) == Books(map[k := b], map[k := 2], map[k := start]);
  }

  lemma AfterOne(probes: seq<Probe>, p: Probe, k: Key, a: string, start: int)
    requires p == Failed(k, a, start) && probes == [p]
    ensures Run(probes) == Books(map[k := a], map[k := 1], map[k := start])
  {
    assert probes[..0] == [];
  }

  // ---- How often a downgrade can happen ------------------------------------------------

  /** Each downgrade used up at least three failures of its own key and more than a whole window. */
  lemma {:induction false} DowngradesArePaidFor(probes: seq<Probe>, k: Key, start: int) returns (last: int)
    requires Timed(probes) && forall p | p in probes :: start <= p.started
    ensures FAILURE_THRESHOLD * DowngradesOf(probes, k) + FailuresOf(Run(probes), k)
         <= FailedBetween(probes, k, 0, |probes|)
    ensures last >= start + PROBE_WINDOW * DowngradesOf(probes, k)
    ensures DowngradesOf(probes, k) > 0 ==> last > start + PROBE_WINDOW * DowngradesOf(probes, k)
    ensures DowngradesOf(probes, k) > 0 ==> probes != [] && last <= probes[|probes| - 1].judged
    ensures DowngradesOf(probes, k) == 0 ==> last == start
    ensures k in Run(probes).windows ==> last <= Run(probes).windows[k]
  {
    last := start;
    if probes != [] {
      var n := |probes| - 1;
      var front := probes[..n];
      assert forall p | p in front :: p in probes;
      last := DowngradesArePaidFor(front, k, start);
      FailedBetweenPrefix(probes, n, k, 0, n);
      assert probes[n] in probes;
      assert front != [] ==> front[n - 1] == probes[n - 1];
      if DowngradedAt(probes, k, n) {
        last := probes[n].judged;
      }
    }
  }

  /** In any run and for every key: three times the downgrades are at most the failed probes, and as
      soon as there is a downgrade, the downgrades times ninety seconds are less than the time since
      the run began. */
  lemma DowngradeBounds(probes: seq<Probe>, k: Key)
    requires Timed(probes) && DowngradesOf(probes, k) > 0
    ensures 3 * DowngradesOf(probes, k) <= FailedBetween(probes, k, 0, |probes|)
    ensures PROBE_WINDOW * DowngradesOf(probes, k) < probes[|probes| - 1].judged - probes[0].started
  {
    forall p | p in probes
      ensures probes[0].started <= p.started
    {
      var i :| 0 <= i < |probes| && probes[i] == p;
    }
    var last := DowngradesArePaidFor(probes, k, probes[0].started);
  }

  // ---- Keys do not interfere -----------------------------------------------------------

  function Only(probes: seq<Probe>, k: Key): seq<Probe> {
    if probes == [] then []
    else Only(probes[..|probes| - 1], k) + if probes[|probes| - 1].key == k then [probes[|probes| - 1]] else []
  }

  ghost predicate SameAt(a: Books, b: Books, k: Key) {
    && (k in a.endpoints <==> k in b.endpoints) && (k in a.endpoints ==> a.endpoints[k] == b.endpoints[k])
    && FailuresOf(a, k) == FailuresOf(b, k)
    && (k in a.windows <==> k in b.windows) && (k in a.windows ==> a.windows[k] == b.windows[k])
  }

  /** What is kept for a key, and whether its next probe downgrades it, depends on its own probes
      only. */
  lemma {:induction false} KeysAreIndependent(probes: seq<Probe>, k: Key)
    ensures SameAt(Run(probes), Run(Only(probes, k)), k)
    ensures DowngradesOf(probes, k) == DowngradesOf(Only(probes, k), k)
  {
    if probes != [] {
      var n := |probes| - 1;
      var front, p := probes[..n], probes[n];
      KeysAreIndependent(front, k);
      if p.key == k {
        var own := Only(front, k) + [p];
        assert own[..|own| - 1] == Only(front, k);
        assert Downgrades(Run(front), p) == Downgrades(Run(Only(front, k)), p);
      } else {
        assert Only(probes, k) == Only(front, k);
      }
    }
  }
}
