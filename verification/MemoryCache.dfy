/**
 The registry cache of memory/cache.go: services and proxies that are updated at once, deleted only
 by a later purge, and listed by endpoint and version.
 */
module MemoryCache {
  import opened ProxyPorts
  import opened StringOrder

  datatype Workload = Workload(address: string, ports: map<string, nat>, labels: map<string, string>)

  /** A ServiceWrapper without its create time. */
  datatype ServiceData = ServiceData(serviceName: string, suffix: string, endpoints: seq<Workload>)

  datatype Service = Service(data: ServiceData, createTime: int)
  datatype Proxy = Proxy(data: ProxyWrapper, createTime: int)

  datatype State = State(
    sew: map<string, Service>, toBeUpdated: seq<Service>, toBeDeleted: seq<Service>, dyingServices: set<string>,
    pw: map<string, Proxy>, dyingProxies: set<string>)

  const EMPTY := State(map[], [], [], {}, map[], {})

  // ---- The operations as functions of the state; `now` is what time.Now gives ----

  datatype Op =
    | UpdateService(service: string, data: ServiceData, now: int)
    | DeleteService(service: string)
    | UpdateProxy(name: string, proxy: ProxyWrapper, now: int)
    | DeleteProxy(name: string)
    | Purge
    | TakeIncremental

  function Apply(s: State, op: Op): State {
    match op
    case UpdateService(h, data, now) =>
      var stored := Service(data, if h in s.sew then s.sew[h].createTime else now);
      s.(sew := s.sew[h := stored], toBeUpdated := s.toBeUpdated + [stored], dyingServices := s.dyingServices - {h})
    case DeleteService(h) =>
      if h !in s.sew then s
      else s.(toBeDeleted := s.toBeDeleted + [s.sew[h]], dyingServices := s.dyingServices + {h})
    case UpdateProxy(n, data, now) =>
      // line 243 looks the proxy's name up among the services
      s.(pw := s.pw[n := Proxy(data, if n in s.pw then s.pw[n].createTime else now)],
      dyingServices := s.dyingServices - {n})
    case DeleteProxy(n) => if n !in s.pw then s else s.(dyingProxies := s.dyingProxies + {n})
    case Purge =>
      s.(sew := s.sew - s.dyingServices, dyingServices := {}, pw := s.pw - s.dyingProxies, dyingProxies := {})
    case TakeIncremental => s.(toBeUpdated := [], toBeDeleted := [])
  }

  function Run(s: State, ops: seq<Op>): State {
    if ops == [] then s else Apply(Run(s, ops[..|ops| - 1]), ops[|ops| - 1])
  }

  /** The deferred sets name only stored items, after every run. */
  lemma {:induction false} DeferredAreStored(ops: seq<Op>)
    ensures var s := Run(EMPTY, ops); s.dyingServices <= s.sew.Keys && s.dyingProxies <= s.pw.Keys
  {
    if ops != [] { DeferredAreStored(ops[..|ops| - 1]); }
  }

  // ---- When a host survives a purge ----

  /** The operations that take a host off the deferred set: its update, and an update of a proxy so named. */
  predicate Renews(op: Op, h: string) {
    (op.UpdateService? && op.service == h) || (op.UpdateProxy? && op.name == h)
  }

  predicate NoPurge(ops: seq<Op>, i: nat, j: nat)
    requires i <= j <= |ops|
  {
    forall m | i <= m < j :: !ops[m].Purge?
  }

  /** The host was renewed after operation j, and no purge came before that. */
  predicate RenewedAfter(ops: seq<Op>, h: string, j: nat)
    requires j < |ops|
  {
    exists k | j < k < |ops| :: Renews(ops[k], h) && NoPurge(ops, j, k)
  }

  predicate Published(ops: seq<Op>, h: string, i: nat)
    requires i < |ops|
  {
    ops[i].UpdateService? && ops[i].service == h
  }

  predicate Deleted(ops: seq<Op>, h: string, j: nat)
    requires j < |ops|
  {
    ops[j].DeleteService? && ops[j].service == h
  }

  /** Published at i, and every later deletion renewed in time; or, if `open`, not yet purged. */
  predicate HeldSince(ops: seq<Op>, h: string, i: nat, open: bool)
    requires i < |ops|
  {
    && Published(ops, h, i)
    && forall j | i < j < |ops| :: Deleted(ops, h, j) ==> RenewedAfter(ops, h, j) || (open && NoPurge(ops, j, |ops|))
  }

  predicate Held(ops: seq<Op>, h: string, open: bool) {
    exists i | 0 <= i < |ops| :: HeldSince(ops, h, i, open)
  }

  lemma NoPurgeStep(ops: seq<Op>, op: Op, i: nat, j: nat)
    requires i <= j <= |ops|
    ensures NoPurge(ops + [op], i, j) == NoPurge(ops, i, j)
    ensures NoPurge(ops + [op], i, |ops| + 1) == (NoPurge(ops, i, |ops|) && !op.Purge?)
  {
    var more := ops + [op];
    assert forall m | 0 <= m < |ops| :: more[m] == ops[m];
    assert more[|ops|] == op;
  }

  /** One more operation: a deletion is renewed by it only if it renews and no purge came between. */
  lemma RenewedStep(ops: seq<Op>, op: Op, h: string, j: nat)
    requires j < |ops|
    ensures RenewedAfter(ops + [op], h, j) <==> RenewedAfter(ops, h, j) || (Renews(op, h) && NoPurge(ops, j, |ops|))
  {
    var more := ops + [op];
    assert forall m | 0 <= m < |ops| :: more[m] == ops[m];
    forall k | j <= k <= |ops| ensures NoPurge(more, j, k) == NoPurge(ops, j, k) { NoPurgeStep(ops, op, j, k); }
    if RenewedAfter(ops, h, j) {
      var k :| j < k < |ops| && Renews(ops[k], h) && NoPurge(ops, j, k);
      assert Renews(more[k], h) && NoPurge(more, j, k);
    }
    if Renews(op, h) && NoPurge(ops, j, |ops|) {
      assert Renews(more[|ops|], h) && NoPurge(more, j, |ops|);
    }
  }

  /** Whether h, published at i, is held after one more operation. */
  function HeldNext(op: Op, h: string, held: bool, heldOpen: bool, open: bool): bool {
    if op.DeleteService? && op.service == h then open && heldOpen
    else if Renews(op, h) then heldOpen
    else if op.Purge? then held
    else if open then heldOpen else held
  }

  lemma HeldSinceStep(ops: seq<Op>, op: Op, h: string, i: nat, open: bool)
    requires i < |ops|
    ensures HeldSince(ops + [op], h, i, open)
            <==> HeldNext(op, h, HeldSince(ops, h, i, false), HeldSince(ops, h, i, true), open)
  {
    hide RenewedAfter, NoPurge;
    var more := ops + [op];
    assert forall m | 0 <= m < |ops| :: more[m] == ops[m];
    assert more[|ops|] == op;
    forall j | i < j < |ops|
      ensures RenewedAfter(more, h, j) <==> RenewedAfter(ops, h, j) || (Renews(op, h) && NoPurge(ops, j, |ops|))
      ensures NoPurge(more, j, |more|) == (NoPurge(ops, j, |ops|) && !op.Purge?)
      ensures Deleted(more, h, j) == Deleted(ops, h, j)
    {
      RenewedStep(ops, op, h, j);
      NoPurgeStep(ops, op, j, j);
    }
    LastNotRenewed(more, h);
  }

  lemma LastNotRenewed(ops: seq<Op>, h: string)
    requires ops != []
    ensures !RenewedAfter(ops, h, |ops| - 1)
    ensures NoPurge(ops, |ops| - 1, |ops|) == !ops[|ops| - 1].Purge?
  {
  }

  lemma HeldStep(ops: seq<Op>, op: Op, h: string, open: bool)
    ensures Held(ops + [op], h, open)
            <==> Published([op], h, 0) || HeldNext(op, h, Held(ops, h, false), Held(ops, h, true), open)
  {
    hide HeldSince;
    var more := ops + [op];
    assert more[|ops|] == op;
    forall i | 0 <= i < |ops|
      ensures HeldSince(more, h, i, open)
              <==> HeldNext(op, h, HeldSince(ops, h, i, false), HeldSince(ops, h, i, true), open)
    {
      HeldSinceStep(ops, op, h, i, open);
    }
    HeldWeaker(ops, h);
    assert HeldSince(more, h, |ops|, open) <==> Published([op], h, 0) by { HeldNow(more, h, open); }
  }

  lemma HeldNow(ops: seq<Op>, h: string, open: bool)
    requires ops != []
    ensures HeldSince(ops, h, |ops| - 1, open) <==> Published(ops, h, |ops| - 1)
  {
  }

  lemma HeldWeaker(ops: seq<Op>, h: string)
    ensures Held(ops, h, false) ==> Held(ops, h, true)
  {
    if Held(ops, h, false) {
      var i :| 0 <= i < |ops| && HeldSince(ops, h, i, false);
      assert HeldSince(ops, h, i, true);
    }
  }

  /**
   A host is stored exactly if it was published and no deletion since then has been purged; it is
   stored and not awaiting deletion exactly if every deletion since then was renewed in time.
   */
  lemma {:induction false} StoredIff(ops: seq<Op>, h: string)
    ensures h in Run(EMPTY, ops).sew <==> Held(ops, h, true)
    ensures h in Run(EMPTY, ops).sew && h !in Run(EMPTY, ops).dyingServices <==> Held(ops, h, false)
  {
    if ops != [] {
      hide Held, Renews;
      var run, op := ops[..|ops| - 1], ops[|ops| - 1];
      assert ops == run + [op];
      StoredIff(run, h);
      HeldStep(run, op, h, true);
      HeldStep(run, op, h, false);
      HeldWeaker(run, h);
      RenewsDef(op, h);
    }
  }

  lemma RenewsDef(op: Op, h: string)
    ensures Renews(op, h) <==> (op.UpdateService? && op.service == h) || (op.UpdateProxy? && op.name == h)
  {
  }

  /** A host survives a purge exactly when it was published and every later deletion was renewed in time. */
  lemma SurvivesIff(ops: seq<Op>, h: string)
    ensures h in Run(EMPTY, ops + [Purge]).sew <==> Held(ops, h, false)
  {
    StoredIff(ops, h);
    assert (ops + [Purge])[..|ops|] == ops;
  }

  /** So an update of a proxy that has the name of a deleted service keeps that service stored. */
  lemma DeletedServiceStays(h: string, w: ServiceData, p: ProxyWrapper, t: int, u: int)
    ensures h in Run(EMPTY, [UpdateService(h, w, t), DeleteService(h), UpdateProxy(h, p, u), Purge]).sew
  {
    var ops := [UpdateService(h, w, t), DeleteService(h), UpdateProxy(h, p, u)];
    assert ops + [Purge] == [UpdateService(h, w, t), DeleteService(h), UpdateProxy(h, p, u), Purge];
    SurvivesIff(ops, h);
    assert Published(ops, h, 0) && Renews(ops[2], h) && NoPurge(ops, 1, 2);
    assert RenewedAfter(ops, h, 1);
    assert HeldSince(ops, h, 0, false);
  }

  /** The last operation on h that publishes or deletes it publishes it. */
  predicate LastPublishes(ops: seq<Op>, h: string) {
    exists i | 0 <= i < |ops| :: Published(ops, h, i) && forall j | i < j < |ops| :: !Deleted(ops, h, j)
  }

  lemma {:induction false} LastPublished(ops: seq<Op>, h: string, i: nat, n: nat) returns (p: nat)
    requires i < n <= |ops| && Published(ops, h, i)
    ensures i <= p < n && Published(ops, h, p) && forall k | p < k < n :: !Published(ops, h, k)
    decreases n
  {
    if n - 1 == i || Published(ops, h, n - 1) { return n - 1; }
    p := LastPublished(ops, h, i, n - 1);
  }

  lemma RenewalPublishes(ops: seq<Op>, h: string, j: nat) returns (k: nat)
    requires forall i | 0 <= i < |ops| :: ops[i].UpdateProxy? ==> ops[i].name != h
    requires j < |ops| && RenewedAfter(ops, h, j)
    ensures j < k < |ops| && Published(ops, h, k)
  {
    k :| j < k < |ops| && Renews(ops[k], h);
  }

  /** With no proxy of its name, a host survives a purge exactly when its last operation was an update. */
  lemma {:induction false} LastOperationDecides(ops: seq<Op>, h: string)
    requires forall i | 0 <= i < |ops| :: ops[i].UpdateProxy? ==> ops[i].name != h
    ensures h in Run(EMPTY, ops + [Purge]).sew <==> LastPublishes(ops, h)
  {
    SurvivesIff(ops, h);
    if Held(ops, h, false) {
      var i :| 0 <= i < |ops| && HeldSince(ops, h, i, false);
      var p := LastPublished(ops, h, i, |ops|);
      forall j | p < j < |ops| ensures !Deleted(ops, h, j) {
        hide NoPurge, RenewedAfter, Published, Deleted, Run, LastPublishes;
        if Deleted(ops, h, j) {
          var k := RenewalPublishes(ops, h, j);
        }
      }
    }
    if LastPublishes(ops, h) {
      var i :| 0 <= i < |ops| && Published(ops, h, i) && forall j | i < j < |ops| :: !Deleted(ops, h, j);
      assert HeldSince(ops, h, i, false);
    }
  }

  // ---- Between purges ----

  /** Without a purge a stored host is never absent and keeps its create time, whatever else happens. */
  lemma {:induction false} NeverAbsent(s: State, ops: seq<Op>, h: string)
    requires h in s.sew && NoPurge(ops, 0, |ops|)
    ensures h in Run(s, ops).sew && Run(s, ops).sew[h].createTime == s.sew[h].createTime
  {
    if ops != [] {
      NoPurgeStep(ops[..|ops| - 1], ops[|ops| - 1], 0, 0);
      assert ops[..|ops| - 1] + [ops[|ops| - 1]] == ops;
      NeverAbsent(s, ops[..|ops| - 1], h);
    }
  }

  lemma ApplyCreates(s: State, op: Op, h: string)
    requires h in Apply(s, op).sew
    ensures h !in s.sew ==> Published([op], h, 0) && Apply(s, op).sew[h].createTime == op.now
    ensures h in s.sew ==> Apply(s, op).sew[h].createTime == s.sew[h].createTime
  {
  }

  /** A host's create time is the time of the update that brought it in, and it was stored ever since. */
  lemma {:induction false} CreatedAt(ops: seq<Op>, h: string) returns (i: nat)
    requires h in Run(EMPTY, ops).sew
    ensures i < |ops| && Published(ops, h, i) && h !in Run(EMPTY, ops[..i]).sew
    ensures forall j | i < j <= |ops| :: h in Run(EMPTY, ops[..j]).sew
    ensures Run(EMPTY, ops).sew[h].createTime == ops[i].now
  {
    var n := |ops| - 1;
    var run := ops[..n];
    assert ops[..n + 1] == ops;
    ApplyCreates(Run(EMPTY, run), ops[n], h);
    hide Apply;
    if h !in Run(EMPTY, run).sew { return n; }
    i := CreatedAt(run, h);
    forall j | i < j <= n ensures h in Run(EMPTY, ops[..j]).sew { assert run[..j] == ops[..j]; }
    assert run[..i] == ops[..i];
  }

  /** What is stored for a host is what its last update brought. */
  lemma {:induction false} DataIsLast(ops: seq<Op>, h: string) returns (i: nat)
    requires h in Run(EMPTY, ops).sew
    ensures i < |ops| && Published(ops, h, i) && forall j | i < j < |ops| :: !Published(ops, h, j)
    ensures Run(EMPTY, ops).sew[h].data == ops[i].data
  {
    var n := |ops| - 1;
    if Published(ops, h, n) { return n; }
    i := DataIsLast(ops[..n], h);
    forall j | i < j < |ops| ensures !Published(ops, h, j) {
      if j < n { assert !Published(ops[..n], h, j); }
    }
  }

  /** The update and delete lists that the calls in ops hand out, one behind the other. */
  function Taken(ops: seq<Op>): (seq<Service>, seq<Service>) {
    if ops == [] then ([], [])
    else
      var n := |ops| - 1;
      var before, s := Taken(ops[..n]), Run(EMPTY, ops[..n]);
      if ops[n].TakeIncremental? then (before.0 + s.toBeUpdated, before.1 + s.toBeDeleted) else before
  }

  function DataOf(services: seq<Service>): (data: seq<ServiceData>)
    ensures |data| == |services| && forall i | 0 <= i < |data| :: data[i] == services[i].data
  {
    seq(|services|, i requires 0 <= i < |services| => services[i].data)
  }

  /** The data of all updates, in order. */
  function AllUpdates(ops: seq<Op>): seq<ServiceData> {
    if ops == [] then []
    else
      var op := ops[|ops| - 1];
      AllUpdates(ops[..|ops| - 1]) + if op.UpdateService? then [op.data] else []
  }

  /** The services that the deletions find stored, in order. */
  function AllDeletes(ops: seq<Op>): seq<Service> {
    if ops == [] then []
    else
      var op, s := ops[|ops| - 1], Run(EMPTY, ops[..|ops| - 1]);
      AllDeletes(ops[..|ops| - 1]) + if op.DeleteService? && op.service in s.sew then [s.sew[op.service]] else []
  }

  /** Nothing is lost and nothing handed out twice: what was handed out and what is pending are all of it, in order. */
  lemma {:induction false} IncrementsConserved(ops: seq<Op>)
    ensures var (updated, deleted) := Taken(ops); var s := Run(EMPTY, ops);
            && DataOf(updated + s.toBeUpdated) == AllUpdates(ops)
            && deleted + s.toBeDeleted == AllDeletes(ops)
  {
    if ops != [] {
      IncrementsConserved(ops[..|ops| - 1]);
      var (updated, deleted) := Taken(ops[..|ops| - 1]);
      var before, after := Run(EMPTY, ops[..|ops| - 1]), Run(EMPTY, ops);
      var op := ops[|ops| - 1];
      if op.UpdateService? {
        assert updated + after.toBeUpdated == (updated + before.toBeUpdated) + [after.sew[op.service]];
        assert DataOf(updated + after.toBeUpdated) == DataOf(updated + before.toBeUpdated) + [op.data];
      } else if op.TakeIncremental? {
        assert (updated + before.toBeUpdated) + [] == updated + before.toBeUpdated;
      }
    }
  }

  predicate ProxyUpdated(ops: seq<Op>, n: string, i: nat)
    requires i < |ops|
  {
    ops[i].UpdateProxy? && ops[i].name == n
  }

  predicate ProxyDeleted(ops: seq<Op>, n: string, j: nat)
    requires j < |ops|
  {
    ops[j].DeleteProxy? && ops[j].name == n
  }

  /** The proxy was stored in s or updated before operation j. */
  predicate ProxyKnown(s: State, ops: seq<Op>, n: string, j: nat)
    requires j <= |ops|
  {
    n in s.pw || exists i | 0 <= i < j :: ProxyUpdated(ops, n, i)
  }

  lemma ProxyKnownStep(s: State, ops: seq<Op>, op: Op, n: string, j: nat)
    requires j <= |ops|
    ensures ProxyKnown(s, ops + [op], n, j) == ProxyKnown(s, ops, n, j)
    ensures ProxyKnown(s, ops + [op], n, |ops| + 1) == (ProxyKnown(s, ops, n, |ops|) || ProxyUpdated([op], n, 0))
  {
    var more := ops + [op];
    assert forall i | 0 <= i < |ops| :: ProxyUpdated(more, n, i) == ProxyUpdated(ops, n, i);
    assert ProxyUpdated(more, n, |ops|) == ProxyUpdated([op], n, 0);
  }

  /** A known proxy was deleted. */
  predicate ProxyDying(s: State, ops: seq<Op>, n: string) {
    exists j | 0 <= j < |ops| :: ProxyDeleted(ops, n, j) && ProxyKnown(s, ops, n, j)
  }

  lemma ProxyDyingStep(s: State, ops: seq<Op>, op: Op, n: string)
    ensures ProxyDying(s, ops + [op], n)
            <==> ProxyDying(s, ops, n) || (ProxyDeleted([op], n, 0) && ProxyKnown(s, ops, n, |ops|))
  {
    hide ProxyKnown;
    var more := ops + [op];
    forall j | 0 <= j <= |ops| ensures ProxyKnown(s, more, n, j) == ProxyKnown(s, ops, n, j) {
      ProxyKnownStep(s, ops, op, n, j);
    }
    assert forall j | 0 <= j < |ops| :: ProxyDeleted(more, n, j) == ProxyDeleted(ops, n, j);
    assert ProxyDeleted(more, n, |ops|) == ProxyDeleted([op], n, 0);
  }

  lemma {:induction false} ProxyStored(s: State, ops: seq<Op>, n: string)
    requires n !in s.dyingProxies && NoPurge(ops, 0, |ops|)
    ensures n in Run(s, ops).pw <==> ProxyKnown(s, ops, n, |ops|)
    ensures n in Run(s, ops).dyingProxies <==> ProxyDying(s, ops, n)
  {
    if ops != [] {
      hide ProxyKnown, ProxyDying, NoPurge;
      var m := |ops| - 1;
      var run, op := ops[..m], ops[m];
      assert ops == run + [op];
      NoPurgeStep(run, op, 0, 0);
      ProxyStored(s, run, n);
      ProxyKnownStep(s, run, op, n, m);
      ProxyDyingStep(s, run, op, n);
    }
  }

  /**
   Proxies have no such reprieve: since an update never takes a proxy off the deferred set, one that
   was stored or published since the last purge survives the next exactly if it was not deleted after
   that, no matter how often it was published again.
   */
  lemma ProxySurvivesIff(s: State, ops: seq<Op>, n: string)
    requires n !in s.dyingProxies && NoPurge(ops, 0, |ops|)
    ensures n in Run(s, ops + [Purge]).pw <==> ProxyKnown(s, ops, n, |ops|) && !ProxyDying(s, ops, n)
  {
    ProxyStored(s, ops, n);
    assert (ops + [Purge])[..|ops|] == ops;
  }

  /** What is stored for a proxy is what its last update brought. */
  lemma {:induction false} ProxyIsLast(ops: seq<Op>, n: string) returns (i: nat)
    requires n in Run(EMPTY, ops).pw
    ensures i < |ops| && ProxyUpdated(ops, n, i) && forall j | i < j < |ops| :: !ProxyUpdated(ops, n, j)
    ensures Run(EMPTY, ops).pw[n].data == ops[i].proxy
  {
    var m := |ops| - 1;
    if ProxyUpdated(ops, n, m) { return m; }
    i := ProxyIsLast(ops[..m], n);
    forall j | i < j < |ops| ensures !ProxyUpdated(ops, n, j) {
      if j < m { assert !ProxyUpdated(ops[..m], n, j); }
    }
  }

  /** Its create time is that of the update that brought it in, and it was stored ever since. */
  lemma {:induction false} ProxyCreatedAt(ops: seq<Op>, n: string) returns (i: nat)
    requires n in Run(EMPTY, ops).pw
    ensures i < |ops| && ProxyUpdated(ops, n, i) && n !in Run(EMPTY, ops[..i]).pw
    ensures forall j | i < j <= |ops| :: n in Run(EMPTY, ops[..j]).pw
    ensures Run(EMPTY, ops).pw[n].createTime == ops[i].now
  {
    var m := |ops| - 1;
    var run := ops[..m];
    assert ops[..m + 1] == ops;
    if n !in Run(EMPTY, run).pw { return m; }
    i := ProxyCreatedAt(run, n);
    forall j | i < j <= m ensures n in Run(EMPTY, ops[..j]).pw { assert run[..j] == ops[..j]; }
    assert run[..i] == ops[..i];
  }

  /** So a proxy deleted and published again is lost, where a service is kept. */
  lemma RepublishedProxyIsLost(n: string, p: ProxyWrapper, q: ProxyWrapper, t: int, u: int)
    ensures n !in Run(EMPTY, [UpdateProxy(n, p, t), DeleteProxy(n), UpdateProxy(n, q, u), Purge]).pw
  {
    var ops := [UpdateProxy(n, p, t), DeleteProxy(n), UpdateProxy(n, q, u)];
    assert ops + [Purge] == [UpdateProxy(n, p, t), DeleteProxy(n), UpdateProxy(n, q, u), Purge];
    ProxySurvivesIff(EMPTY, ops, n);
    assert ProxyUpdated(ops, n, 0) && ProxyDeleted(ops, n, 1);
  }

  // ---- Services by endpoint and version ----

  datatype Query = Query(versions: set<string>, endpoints: set<string>, versionKey: string, protocol: string)

  const DIGITS := "0123456789"

  function Itoa(n: nat): string {
    (if n < 10 then "" else Itoa(n / 10)) + [DIGITS[n % 10]]
  }

  /** The number that a decimal text stands for. */
  function Value(s: string): int {
    if s == "" then 0 else 10 * Value(s[..|s| - 1]) + (s[|s| - 1] as int - '0' as int)
  }

  lemma ItoaStep(n: nat)
    ensures n < 10 ==> Itoa(n) == [DIGITS[n]]
    ensures n >= 10 ==> Itoa(n) == Itoa(n / 10) + [DIGITS[n % 10]]
    ensures forall d | 0 <= d < 10 :: DIGITS[d] as int == '0' as int + d
  {
  }

  /** The decimal text of n: digits only, no leading zero, and n is its value. */
  lemma {:induction false} ItoaIs(n: nat)
    ensures var s := Itoa(n);
            && Value(s) == n && s != "" && (forall i | 0 <= i < |s| :: '0' <= s[i] <= '9') && (n > 0 ==> s[0] != '0')
            && (n < 10 ==> |s| == 1)
  {
    hide Itoa;
    ItoaStep(n);
    var s := Itoa(n);
    if n >= 10 {
      ItoaIs(n / 10);
      assert s[..|s| - 1] == Itoa(n / 10);
    } else {
      assert s[..0] == "";
    }
  }

  /** The workload is one of the endpoints asked for, in one of the versions asked for. */
  predicate Hits(q: Query, w: Workload) {
    && q.protocol in w.ports
    && w.address + ":" + Itoa(w.ports[q.protocol]) in q.endpoints
    && q.versionKey in w.labels
    && w.labels[q.versionKey] in q.versions
  }

  function Key(d: ServiceData): string { d.serviceName + "#@" + d.suffix }

  /** One of the first n workloads of the service hits in version v. */
  predicate Offers(q: Query, d: ServiceData, n: nat, v: string)
    requires n <= |d.endpoints|
  {
    exists i | 0 <= i < n :: Hits(q, d.endpoints[i]) && d.endpoints[i].labels[q.versionKey] == v
  }

  /** One of the hosts offers version v under the key. */
  predicate Serves(sew: map<string, Service>, hosts: set<string>, q: Query, key: string, v: string)
    requires hosts <= sew.Keys
  {
    exists h | h in hosts :: Key(sew[h].data) == key && Offers(q, sew[h].data, |sew[h].data.endpoints|, v)
  }

  predicate Lists(result: map<string, seq<string>>, key: string, v: string) {
    key in result && v in result[key]
  }

  /** Every key that is served, with the sorted list of exactly the versions served under it. */
  ghost predicate Answers(sew: map<string, Service>, q: Query, result: map<string, seq<string>>) {
    && (forall key | key in result :: result[key] != [] && StrictlySorted(result[key]))
    && (forall key, v :: Lists(result, key, v) <==> Serves(sew, sew.Keys, q, key, v))
  }

  /** The versions of a service's workloads, all at one endpoint asked for: its key with each version once, in order. */
  lemma AnswerExample(createTime: int, r: map<string, seq<string>>)
    requires Answers(ExampleCache(createTime), ExampleQuery(), r)
    ensures r == map["map#@public.nacos" := ["v1", "v2"]]
  {
    var sew, q := ExampleCache(createTime), ExampleQuery();
    var t, key := map["map#@public.nacos" := ["v1", "v2"]], "map#@public.nacos";
    ExampleOffers();
    forall k, v ensures Lists(t, k, v) <==> Serves(sew, sew.Keys, q, k, v) {
      hide Offers;
      ExampleServes(createTime, k, v);
    }
    assert Answers(sew, q, t);
    AnswerUnique(sew, q, r, t);
  }

  function ExampleWorkload(address: string, port: nat, version: string): Workload {
    Workload(address, map["HTTP" := port], map["version" := version])
  }

  function ExampleData(): ServiceData {
    ServiceData("map", "public.nacos", [
      ExampleWorkload("10.0.0.1", 80, "v2"),
      ExampleWorkload("10.0.0.1", 80, "v4"), // not a version asked for
      ExampleWorkload("10.0.0.1", 80, "v1"),
      ExampleWorkload("10.0.0.1", 81, "v3"), // not an endpoint asked for
      Workload("10.0.0.1", map["HTTP" := 80], map["v" := "v3"]),
      Workload("10.0.0.1", map["TCP" := 80], map["version" := "v3"]),
      ExampleWorkload("10.0.0.1", 80, "v2")])
  }

  function ExampleCache(createTime: int): map<string, Service> { map["h" := Service(ExampleData(), createTime)] }

  function ExampleQuery(): Query { Query({"v1", "v2", "v3"}, {"10.0.0.1:80"}, "version", "HTTP") }

  lemma ExampleServes(createTime: int, k: string, v: string)
    ensures Serves(ExampleCache(createTime), ExampleCache(createTime).Keys, ExampleQuery(), k, v)
            <==> k == "map#@public.nacos" && (v == "v1" || v == "v2")
  {
    hide Offers;
    ExampleOffers();
    var sew := ExampleCache(createTime);
    assert "h" in sew && Key(sew["h"].data) == "map#@public.nacos";
  }

  lemma ExampleOffers()
    ensures forall v :: Offers(ExampleQuery(), ExampleData(), 7, v) <==> v == "v1" || v == "v2"
    ensures |ExampleData().endpoints| == 7 && StrictlySorted(["v1", "v2"])
  {
    var q, d := ExampleQuery(), ExampleData();
    ExampleTexts();
    forall i | 0 <= i < 7 ensures Hits(q, d.endpoints[i]) <==> i in {0, 2, 6} {
      hide Itoa;
    }
    hide Hits;
    assert d.endpoints[0].labels[q.versionKey] == "v2" && d.endpoints[2].labels[q.versionKey] == "v1";
  }

  lemma ExampleTexts()
    ensures "10.0.0.1" + ":" + Itoa(80) == "10.0.0.1:80" && "10.0.0.1" + ":" + Itoa(81) != "10.0.0.1:80"
    ensures Less("v1", "v2")
  {
    hide Itoa;
    ItoaStep(8);
    ItoaStep(80);
    ItoaStep(81);
    assert Itoa(80) == "80" && Itoa(81) == "81";
    assert ("10.0.0.1" + ":" + "81")[10] == '1';
    assert "v1"[1..] == "1" && "v2"[1..] == "2";
  }

  /** The answer does not depend on the order in which the cache is walked. */
  lemma AnswerUnique(sew: map<string, Service>, q: Query, r: map<string, seq<string>>, t: map<string, seq<string>>)
    requires Answers(sew, q, r) && Answers(sew, q, t)
    ensures r == t
  {
    hide Serves;
    forall key ensures key in r <==> key in t {
      if key in r { assert Lists(r, key, r[key][0]) && Lists(t, key, r[key][0]); }
      if key in t { assert Lists(t, key, t[key][0]) && Lists(r, key, t[key][0]); }
    }
    forall key | key in r ensures r[key] == t[key] {
      assert forall v :: v in r[key] <==> Lists(r, key, v);
      assert forall v :: v in t[key] <==> Lists(t, key, v);
      SortedUnique(r[key], t[key]);
    }
  }

  /** The removal of duplicates, in place: the first n elements are the distinct ones, in order. */
  method Distinct(versions: array<string>) returns (n: nat)
    requires versions.Length > 0 && Sorted(versions[..])
    modifies versions
    ensures 0 < n <= versions.Length && StrictlySorted(versions[..n])
    ensures forall x :: x in versions[..n] <==> x in old(versions[..])
  {
    var i := 0;
    for j := 1 to versions.Length
      invariant 0 <= i < j
      invariant StrictlySorted(versions[..i + 1])
      invariant forall x :: x in versions[..i + 1] <==> x in old(versions[..j])
      invariant versions[j..] == old(versions[j..]) && versions[i] == old(versions[j - 1])
    {
      ghost var kept := versions[..i + 1];
      assert old(versions[..j + 1]) == old(versions[..j]) + [old(versions[j])];
      assert versions[j] == versions[j..][0] == old(versions[j]);
      if versions[j] != versions[i] {
        Extended(kept, versions[j]) by {
          assert old(versions[..])[j - 1] == versions[i];
          LessTotal(versions[i], versions[j]);
        }
        i := i + 1;
        versions[i] := versions[j];
        assert versions[..i + 1] == kept + [versions[i]];
      }
    }
    n := i + 1;
    assert old(versions[..versions.Length]) == old(versions[..]);
  }

  lemma Extended(s: seq<string>, x: string)
    requires s != [] && StrictlySorted(s) && Less(s[|s| - 1], x)
    ensures StrictlySorted(s + [x])
  {
    forall i | 0 <= i < |s| ensures Less(s[i], x) {
      if i < |s| - 1 { LessTransitive(s[i], s[|s| - 1], x); }
    }
  }

  // ---- The object ----

  class Store {
    var sew: map<string, Service>
    var toBeUpdated: seq<Service>
    var toBeDeleted: seq<Service>
    var deferredDeleteServices: set<string>
    var pw: map<string, Proxy>
    var deferredDeleteProxies: set<string>

    ghost function Contents(): State
      reads this
    {
      State(sew, toBeUpdated, toBeDeleted, deferredDeleteServices, pw, deferredDeleteProxies)
    }

    constructor ()
      ensures Contents() == EMPTY
    {
      sew, toBeUpdated, toBeDeleted, deferredDeleteServices, pw, deferredDeleteProxies := map[], [], [], {}, map[], {};
    }

    method UpdateServiceWrapper(service: string, data: ServiceData, now: int)
      modifies this
      ensures Contents() == Apply(old(Contents()), UpdateService(service, data, now))
    {
      var createTime := now;
      if service in sew {
        createTime := sew[service].createTime;
      }
      toBeUpdated := toBeUpdated + [Service(data, createTime)];
      sew := sew[service := Service(data, createTime)];
      if service in deferredDeleteServices {
        deferredDeleteServices := deferredDeleteServices - {service};
      }
    }

    method DeleteServiceWrapper(service: string)
      modifies this
      ensures Contents() == Apply(old(Contents()), DeleteService(service))
    {
      if service in sew {
        toBeDeleted := toBeDeleted + [sew[service]];
        deferredDeleteServices := deferredDeleteServices + {service};
      }
    }

    method UpdateProxyWrapper(name: string, data: ProxyWrapper, now: int)
      modifies this
      ensures Contents() == Apply(old(Contents()), UpdateProxy(name, data, now))
    {
      var createTime := now;
      if name in pw {
        createTime := pw[name].createTime;
      }
      pw := pw[name := Proxy(data, createTime)];
      if name in deferredDeleteServices {
        deferredDeleteServices := deferredDeleteServices - {name};
      }
    }

    method DeleteProxyWrapper(name: string)
      modifies this
      ensures Contents() == Apply(old(Contents()), DeleteProxy(name))
    {
      if name in pw {
        deferredDeleteProxies := deferredDeleteProxies + {name};
      }
    }

    method PurgeStaleItems() returns (deleted: bool)
      modifies this
      ensures Contents() == Apply(old(Contents()), Purge)
      ensures deleted <==> old(deferredDeleteServices) + old(deferredDeleteProxies) != {}
    {
      deleted := false;
      while deferredDeleteServices != {}
        invariant deferredDeleteServices <= old(deferredDeleteServices)
        invariant sew == old(sew) - (old(deferredDeleteServices) - deferredDeleteServices)
        invariant pw == old(pw) && deferredDeleteProxies == old(deferredDeleteProxies)
        invariant toBeUpdated == old(toBeUpdated) && toBeDeleted == old(toBeDeleted)
        invariant deleted <==> deferredDeleteServices < old(deferredDeleteServices)
        decreases deferredDeleteServices
      {
        var service :| service in deferredDeleteServices;
        sew := sew - {service};
        deferredDeleteServices := deferredDeleteServices - {service};
        deleted := true;
      }
      while deferredDeleteProxies != {}
        invariant deferredDeleteProxies <= old(deferredDeleteProxies)
        invariant sew == old(sew) - old(deferredDeleteServices) && deferredDeleteServices == {}
        invariant pw == old(pw) - (old(deferredDeleteProxies) - deferredDeleteProxies)
        invariant toBeUpdated == old(toBeUpdated) && toBeDeleted == old(toBeDeleted)
        invariant deleted <==> old(deferredDeleteServices) != {} || deferredDeleteProxies < old(deferredDeleteProxies)
        decreases deferredDeleteProxies
      {
        var proxy :| proxy in deferredDeleteProxies;
        pw := pw - {proxy};
        deferredDeleteProxies := deferredDeleteProxies - {proxy};
        deleted := true;
      }
    }

    method GetIncrementalServiceWrapper() returns (updatedList: seq<Service>, deletedList: seq<Service>)
      modifies this
      ensures Contents() == Apply(old(Contents()), TakeIncremental)
      ensures updatedList == old(toBeUpdated) && deletedList == old(toBeDeleted)
    {
      updatedList, deletedList := toBeUpdated, toBeDeleted;
      toBeUpdated, toBeDeleted := [], [];
    }

    /** The workloads of one service: each hit appends its version to the list of the service's key. */
    static method AppendVersions(q: Query, d: ServiceData, before: map<string, seq<string>>)
      returns (result: map<string, seq<string>>)
      requires forall key | key in before :: before[key] != []
      ensures Collected(result, before, q, d, |d.endpoints|)
    {
      result := before;
      for i := 0 to |d.endpoints|
        invariant Collected(result, before, q, d, i)
      {
        hide Collected, Append;
        WorkloadDone(result, before, q, d, i);
        var workload := d.endpoints[i];
        if q.protocol in workload.ports {
          var endpoint := workload.address + ":" + Itoa(workload.ports[q.protocol]);
          if endpoint in q.endpoints && q.versionKey in workload.labels {
            var version := workload.labels[q.versionKey];
            if version in q.versions {
              result := Append(result, Key(d), version);
            }
          }
        }
      }
    }

    method GetServiceByEndpoints(q: Query) returns (result: map<string, seq<string>>)
      ensures Answers(sew, q, result)
    {
      result := map[];
      var hosts := sew.Keys;
      while hosts != {}
        invariant hosts <= sew.Keys
        invariant forall key | key in result :: result[key] != []
        invariant forall key, v :: Lists(result, key, v) <==> Serves(sew, sew.Keys - hosts, q, key, v)
        decreases hosts
      {
        var h :| h in hosts;
        result := AppendVersions(q, sew[h].data, result);
        ServesMore(sew, q, sew.Keys - hosts, h);
        assert sew.Keys - hosts + {h} == sew.Keys - (hosts - {h});
        hosts := hosts - {h};
      }
      ghost var found := result;
      var keys := result.Keys;
      while keys != {}
        invariant keys <= result.Keys == found.Keys
        invariant forall key | key in result :: result[key] != []
        invariant forall key | key in result && key !in keys :: StrictlySorted(result[key])
        invariant forall key, v :: Lists(result, key, v) <==> Lists(found, key, v)
        decreases keys
      {
        var key :| key in keys;
        var sorted := Sort(result[key]);
        SameElements(result[key], sorted);
        var versions := new string[|sorted|](i requires 0 <= i < |sorted| => sorted[i]);
        assert versions[..] == sorted;
        var n := Distinct(versions);
        result := result[key := versions[..n]];
        keys := keys - {key};
      }
    }
  }

  lemma SameElements(s: seq<string>, t: seq<string>)
    requires multiset(s) == multiset(t)
    ensures |s| == |t| && forall x :: x in s <==> x in t
  {
    assert |multiset(s)| == |s| && |multiset(t)| == |t|;
    assert forall x :: x in s <==> x in multiset(s);
  }

  function Append(m: map<string, seq<string>>, key: string, version: string): map<string, seq<string>> {
    m[key := (if key in m then m[key] else []) + [version]]
  }

  /** What the loop over the workloads keeps: the lists before it, and the versions of the first n workloads. */
  ghost predicate Collected(
    result: map<string, seq<string>>, before: map<string, seq<string>>, q: Query, d: ServiceData, n: nat)
    requires n <= |d.endpoints|
  {
    && (forall key | key in result :: result[key] != [])
    && (forall key, v :: Lists(result, key, v)
                         <==> Lists(before, key, v) || (key == Key(d) && Offers(q, d, n, v)))
  }

  lemma WorkloadDone(
    result: map<string, seq<string>>, before: map<string, seq<string>>, q: Query, d: ServiceData, i: nat)
    requires i < |d.endpoints| && Collected(result, before, q, d, i)
    ensures var w := d.endpoints[i];
            var next := if Hits(q, w) then Append(result, Key(d), w.labels[q.versionKey]) else result;
            Collected(next, before, q, d, i + 1)
  {
  }

  lemma ServesMore(sew: map<string, Service>, q: Query, hosts: set<string>, h: string)
    requires hosts <= sew.Keys && h in sew
    ensures forall key, v :: Serves(sew, hosts + {h}, q, key, v)
                             <==> Serves(sew, hosts, q, key, v)
                                  || (key == Key(sew[h].data) && Offers(q, sew[h].data, |sew[h].data.endpoints|, v))
  {
  }
}
