/**
 The reconciler of reconcile/reconcile.go: it brings the running registry watchers and the cached
 proxies in line with an McpBridge, after filling in missing listener ports.
 */
module Reconcile {
  import opened MemoryCache
  import opened ProxyPorts
  import opened Wrappers

  /** A registry of the spec; `key` is its type and name joined. */
  datatype RegistryConfig = RegistryConfig(key: string, settings: string)

  datatype Bridge = Bridge(registries: seq<RegistryConfig>, proxies: seq<ProxyConfig>)

  /** How a reconciliation ends. Saved and SaveFailed come before anything else is touched. */
  datatype Outcome = Done | WatcherFailed | NotReady | Saved(proxies: seq<ProxyConfig>) | SaveFailed

  /** The registries by key, and the proxies by name; the last of a key counts. */
  function ByKey(list: seq<RegistryConfig>): map<string, RegistryConfig> {
    if list == [] then map[] else ByKey(list[..|list| - 1])[list[|list| - 1].key := list[|list| - 1]]
  }

  function ByName(list: seq<ProxyConfig>): map<string, ProxyConfig> {
    if list == [] then map[] else ByName(list[..|list| - 1])[list[|list| - 1].name := list[|list| - 1]]
  }

  /** A key is there exactly if an entry of the list has it, and stands for the last such entry. */
  lemma {:induction false} ByKeyHas(list: seq<RegistryConfig>, k: string)
    ensures k in ByKey(list) <==> exists i | 0 <= i < |list| :: list[i].key == k
  {
    if list != [] {
      var n := |list| - 1;
      ByKeyHas(list[..n], k);
      if i :| 0 <= i < |list| && list[i].key == k { assert i == n || list[..n][i].key == k; }
    }
  }

  lemma {:induction false} ByKeyIs(list: seq<RegistryConfig>, i: nat)
    requires i < |list| && forall j | i < j < |list| :: list[j].key != list[i].key
    ensures list[i].key in ByKey(list) && ByKey(list)[list[i].key] == list[i]
  {
    var n := |list| - 1;
    if i < n { ByKeyIs(list[..n], i); }
  }

  /** A name is there exactly if an entry of the list has it, and stands for the last such entry. */
  lemma {:induction false} ByNameHas(list: seq<ProxyConfig>, k: string)
    ensures k in ByName(list) <==> exists i | 0 <= i < |list| :: list[i].name == k
  {
    if list != [] {
      var n := |list| - 1;
      ByNameHas(list[..n], k);
      if i :| 0 <= i < |list| && list[i].name == k { assert i == n || list[..n][i].name == k; }
    }
  }

  lemma {:induction false} ByNameIs(list: seq<ProxyConfig>, i: nat)
    requires i < |list| && forall j | i < j < |list| :: list[j].name != list[i].name
    ensures list[i].name in ByName(list) && ByName(list)[list[i].name] == list[i]
  {
    var n := |list| - 1;
    if i < n { ByNameIs(list[..n], i); }
  }

  method IndexByKey(list: seq<RegistryConfig>) returns (registries: map<string, RegistryConfig>)
    ensures registries == ByKey(list)
  {
    registries := map[];
    for i := 0 to |list|
      invariant registries == ByKey(list[..i])
    {
      assert list[..i + 1][..i] == list[..i];
      registries := registries[list[i].key := list[i]];
    }
    assert list[..|list|] == list;
  }

  method IndexByName(list: seq<ProxyConfig>) returns (proxies: map<string, ProxyConfig>)
    ensures proxies == ByName(list)
  {
    proxies := map[];
    for i := 0 to |list|
      invariant proxies == ByName(list[..i])
    {
      assert list[..i + 1][..i] == list[..i];
      proxies := proxies[list[i].name := list[i]];
    }
    assert list[..|list|] == list;
  }

  function Created<T>(was: map<string, T>, now: map<string, T>): map<string, T> {
    map k | k in now && k !in was :: now[k]
  }

  function Updated<T(==)>(was: map<string, T>, now: map<string, T>): map<string, T> {
    map k | k in now && k in was && now[k] != was[k] :: now[k]
  }

  function Gone<T>(was: map<string, T>, now: map<string, T>): map<string, T> {
    map k | k in was && k !in now :: was[k]
  }

  /** The keys for which a watcher has to be generated, and those of them for which that fails. */
  function Generated<T(==)>(was: map<string, T>, now: map<string, T>): set<string> {
    Created(was, now).Keys + Updated(was, now).Keys
  }

  /** The registries after a reconciliation in which generating a watcher fails for the keys `fails`. */
  function AfterRegistries<T(==)>(was: map<string, T>, now: map<string, T>, fails: set<string>): map<string, T> {
    now - (Generated(was, now) * fails)
  }

  /** The next reconciliation with the same registries generates exactly the watchers that failed. */
  lemma RetriesFailedOnly<T>(was: map<string, T>, now: map<string, T>, fails: set<string>)
    ensures var r := AfterRegistries(was, now, fails);
            && Created(r, now).Keys == Generated(was, now) * fails
            && Updated(r, now) == map[] && Gone(r, now) == map[]
  {
  }

  function Registries<T(==)>(was: map<string, T>, now: map<string, T>, runs: seq<set<string>>): map<string, T> {
    if runs == [] then was
    else AfterRegistries(Registries(was, now, runs[..|runs| - 1]), now, runs[|runs| - 1])
  }

  /** Over any number of reconciliations of one spec, what is missing is what failed every single time. */
  lemma {:induction false} MissingFailedEveryTime<T>(was: map<string, T>, now: map<string, T>, runs: seq<set<string>>)
    requires runs != []
    ensures Registries(was, now, runs)
            == map k | k in now && !(k in Generated(was, now) && forall i | 0 <= i < |runs| :: k in runs[i]) :: now[k]
  {
    var n := |runs| - 1;
    if n > 0 {
      MissingFailedEveryTime(was, now, runs[..n]);
      forall k | k in now
        ensures (forall i | 0 <= i < |runs| :: k in runs[i])
                <==> (forall i | 0 <= i < n :: k in runs[..n][i]) && k in runs[n]
      {
        assert forall i | 0 <= i < n :: runs[..n][i] == runs[i];
      }
    } else {
      assert runs[..n] == [];
    }
  }

  /** The proxies recorded after a reconciliation: one that cannot be built keeps its old record, if any. */
  function AfterProxies(patches: Renderer, was: map<string, ProxyConfig>, now: map<string, ProxyConfig>):
      map<string, ProxyConfig>
  {
    map k | k in now && (k in was || BuildProxyWrapper(patches, now[k]).Some?)
      :: if BuildProxyWrapper(patches, now[k]).Some? then now[k] else was[k]
  }

  /** What is generated, and what the registries are afterwards, key by key. */
  lemma RegistriesIff<T>(was: map<string, T>, now: map<string, T>, fails: set<string>, k: string)
    ensures k in Generated(was, now) <==> k in now && (k in was ==> was[k] != now[k])
    ensures var r := AfterRegistries(was, now, fails);
            && (k in r <==> k in now && (k in fails ==> k in was && was[k] == now[k]))
            && (k in r ==> r[k] == now[k])
  {
  }

  /** What the proxies are afterwards: one that cannot be built stays out, or as it was. */
  lemma ProxiesIff(patches: Renderer, was: map<string, ProxyConfig>, now: map<string, ProxyConfig>, k: string)
    ensures var r := AfterProxies(patches, was, now);
            && (k in r <==> k in now && (k in was || BuildProxyWrapper(patches, now[k]).Some?))
            && (k in r ==> r[k] == if BuildProxyWrapper(patches, now[k]).Some? then now[k] else was[k])
  {
    hide BuildProxyWrapper;
  }

  method Diff<T(==)>(was: map<string, T>, now: map<string, T>)
    returns (created: map<string, T>, updated: map<string, T>, deleted: map<string, T>)
    ensures created == Created(was, now) && updated == Updated(was, now) && deleted == Gone(was, now)
  {
    created, updated, deleted := map[], map[], map[];
    var keys := now.Keys;
    while keys != {}
      invariant keys <= now.Keys
      invariant created == map k | k in now && k !in keys && k !in was :: now[k]
      invariant updated == map k | k in now && k !in keys && k in was && now[k] != was[k] :: now[k]
      decreases keys
    {
      var k :| k in keys;
      if k !in was {
        created := created[k := now[k]];
      } else if now[k] != was[k] {
        updated := updated[k := now[k]];
      }
      keys := keys - {k};
    }
    keys := was.Keys;
    while keys != {}
      invariant keys <= was.Keys
      invariant deleted == map k | k in was && k !in keys && k !in now :: was[k]
      decreases keys
    {
      var k :| k in keys;
      if k !in now {
        deleted := deleted[k := was[k]];
      }
      keys := keys - {k};
    }
  }

  predicate AnyOf(keys: set<string>, fails: set<string>) { keys * fails != {} }

  lemma AnyOfStep(done: set<string>, fails: set<string>, k: string)
    ensures AnyOf(done + {k}, fails) <==> AnyOf(done, fails) || k in fails
  {
    assert (done + {k}) * fails == done * fails + {k} * fails;
    assert k in fails ==> k in {k} * fails;
  }

  lemma AnyOfNone(fails: set<string>)
    ensures !AnyOf({}, fails)
  {
  }

  /** m after the keys `done` have been replaced from u, or dropped where that fails. */
  function Replaced<T>(m: map<string, T>, u: map<string, T>, fails: set<string>, done: set<string>): map<string, T>
    requires done <= u.Keys
  {
    map k | k in m && !(k in done && k in fails) :: if k in done then u[k] else m[k]
  }

  /** m after the keys `done` have been added from c, except where that fails. */
  function Added<T>(m: map<string, T>, c: map<string, T>, fails: set<string>, done: set<string>): map<string, T>
    requires done <= c.Keys
  {
    m + map k | k in c && k in done && k !in fails :: c[k]
  }

  lemma ReplacedStep<T>(m: map<string, T>, u: map<string, T>, fails: set<string>, done: set<string>, k: string)
    requires done <= u.Keys <= m.Keys && k in u && k !in done
    ensures var r := Replaced(m, u, fails, done);
            && k in r
            && Replaced(m, u, fails, done + {k}) == if k in fails then r - {k} else (r - {k})[k := u[k]]
  {
  }

  lemma AddedStep<T>(m: map<string, T>, c: map<string, T>, fails: set<string>, done: set<string>, k: string)
    requires done <= c.Keys && c.Keys !! m.Keys && k in c && k !in done
    ensures var r := Added(m, c, fails, done);
            && k !in r
            && Added(m, c, fails, done + {k}) == if k in fails then r else r[k := c[k]]
  {
  }

  lemma ReplacedNone<T>(m: map<string, T>, u: map<string, T>, fails: set<string>)
    ensures Replaced(m, u, fails, {}) == m
  {
  }

  lemma AddedNone<T>(m: map<string, T>, c: map<string, T>, fails: set<string>)
    ensures Added(m, c, fails, {}) == m
  {
  }

  lemma Combined<T>(was: map<string, T>, now: map<string, T>, fails: set<string>)
    ensures var c, u := Created(was, now), Updated(was, now);
            var kept := was - Gone(was, now).Keys;
            && Gone(was, now).Keys <= was.Keys && u.Keys <= kept.Keys
            && Generated(was, now) == c.Keys + u.Keys
            && c.Keys !! Replaced(kept, u, fails, u.Keys).Keys
            && Added(Replaced(kept, u, fails, u.Keys), c, fails, c.Keys) == AfterRegistries(was, now, fails)
            && (AnyOf(Generated(was, now), fails) <==> AnyOf(u.Keys, fails) || AnyOf(c.Keys, fails))
  {
    var c, u := Created(was, now), Updated(was, now);
    assert Generated(was, now) * fails == u.Keys * fails + c.Keys * fails;
  }

  /** The watchers of the keys `done` were started since `mark`; the others are as they were. */
  ghost predicate Carries(watchers: map<string, nat>, was: map<string, nat>, mark: nat, done: set<string>) {
    forall k | k in watchers :: if k in done then watchers[k] >= mark else k in was && watchers[k] == was[k]
  }

  lemma CarriesSet(w: map<string, nat>, was: map<string, nat>, mark: nat, done: set<string>, k: string, v: nat)
    requires Carries(w, was, mark, done) && v >= mark
    ensures Carries(w - {k}, was, mark, done + {k}) && Carries((w - {k})[k := v], was, mark, done + {k})
    ensures k !in w ==> Carries(w, was, mark, done + {k}) && Carries(w[k := v], was, mark, done + {k})
  {
  }

  lemma CarriesOn(
    w3: map<string, nat>, w2: map<string, nat>, w1: map<string, nat>, was: map<string, nat>,
    later: nat, mark: nat, c: set<string>, u: set<string>)
    requires Carries(w1, was, mark, {}) && Carries(w2, w1, mark, u) && Carries(w3, w2, later, c) && later >= mark
    ensures Carries(w3, was, mark, c + u)
  {
  }

  lemma ValuesWithout(m: map<string, nat>, k: string)
    requires k in m && forall l | l in m && l != k :: m[l] != m[k]
    ensures forall w :: w in (m - {k}).Values <==> w in m.Values && w != m[k]
  {
    forall w | w in m.Values && w != m[k] ensures w in (m - {k}).Values {
      var l :| l in m && m[l] == w;
      assert l in m - {k} && (m - {k})[l] == w;
    }
  }

  lemma ValuesWith(m: map<string, nat>, k: string, v: nat)
    requires k !in m
    ensures forall w :: w in m[k := v].Values <==> w in m.Values || w == v
  {
    var more := m[k := v];
    assert more[k] == v;
    forall w | w in m.Values ensures w in more.Values {
      var l :| l in m && m[l] == w;
      assert l in more && more[l] == w;
    }
  }

  /** The services of the cache, with those that await deletion. */
  datatype CachedServices = CachedServices(
    sew: map<string, Service>, toBeUpdated: seq<Service>, toBeDeleted: seq<Service>, dying: set<string>)

  /** A watcher is a number; numbers are given out in the order in which watchers are started. */
  class Reconciler {
    const patches: Renderer
    const cache: Store
    var registries: map<string, RegistryConfig>
    var watchers: map<string, nat>
    var proxies: map<string, ProxyConfig>
    var started: nat
    ghost var stops: multiset<nat>
    ghost var notices: nat

    /** Registries and watchers go together; the running watchers are those; none was stopped twice. */
    ghost predicate WatchersValid()
      reads `registries, `watchers, `started, `stops
    {
      && registries.Keys == watchers.Keys
      && (forall k, l | k in watchers && l in watchers && k != l :: watchers[k] != watchers[l])
      && (forall w: nat :: w in watchers.Values <==> w < started && w !in stops)
      && (forall w | w in stops :: w < started && stops[w] == 1)
    }

    /** Every recorded proxy is cached as it is built, nothing else is, and none awaits deletion. */
    ghost predicate ProxiesValid()
      reads `proxies, cache
    {
      && cache.deferredDeleteProxies == {}
      && cache.pw.Keys == proxies.Keys
      && forall k | k in proxies :: BuildProxyWrapper(patches, proxies[k]) == Some(cache.pw[k].data)
    }

    constructor (patches: Renderer)
      ensures WatchersValid() && ProxiesValid() && fresh(cache)
      ensures registries == map[] && proxies == map[] && this.patches == patches
    {
      this.patches := patches;
      cache := new Store();
      registries, watchers, proxies, started, stops, notices := map[], map[], map[], 0, multiset{}, 0;
    }

    /** Takes a key out: its watcher is stopped. */
    method Remove(k: string)
      requires WatchersValid() && k in watchers
      modifies `registries, `watchers, `stops
      ensures WatchersValid()
      ensures registries == old(registries) - {k} && watchers == old(watchers) - {k}
      ensures stops == old(stops) + multiset{old(watchers)[k]}
    {
      ValuesWithout(watchers, k);
      stops := stops + multiset{watchers[k]};
      registries, watchers := registries - {k}, watchers - {k};
    }

    /** Generates a watcher and starts it, unless that fails. */
    method Add(k: string, v: RegistryConfig, fails: set<string>) returns (ok: bool)
      requires WatchersValid() && k !in watchers
      modifies `registries, `watchers, `started
      ensures WatchersValid() && ok == (k !in fails)
      ensures ok ==> registries == old(registries)[k := v] && watchers == old(watchers)[k := old(started)]
      ensures !ok ==> registries == old(registries) && watchers == old(watchers)
      ensures started == old(started) + if ok then 1 else 0
    {
      ok := k !in fails;
      if ok {
        ValuesWith(watchers, k, started);
        assert forall l | l in watchers :: watchers[l] in watchers.Values;
        watchers := watchers[k := started];
        registries := registries[k := v];
        started := started + 1;
      }
    }

    method RemoveDeleted(toBeDeleted: map<string, RegistryConfig>)
      requires WatchersValid() && toBeDeleted.Keys <= registries.Keys
      modifies `registries, `watchers, `stops
      ensures WatchersValid()
      ensures registries == old(registries) - toBeDeleted.Keys
      ensures Carries(watchers, old(watchers), started, {})
    {
      SameKeys();
      hide WatchersValid;
      var keys := toBeDeleted.Keys;
      while keys != {}
        invariant WatchersValid() && registries.Keys == watchers.Keys && keys <= toBeDeleted.Keys
        invariant registries == old(registries) - (toBeDeleted.Keys - keys)
        invariant Carries(watchers, old(watchers), started, {})
        decreases keys
      {
        var k :| k in keys;
        Remove(k);
        keys := keys - {k};
      }
    }

    /** Registries r and watchers w as the loop found them, the keys `done` gone through since. */
    ghost predicate ReplaceSoFar(
      r: map<string, RegistryConfig>, w: map<string, nat>, mark: nat,
      toBeUpdated: map<string, RegistryConfig>, fails: set<string>, done: set<string>, errHappened: bool)
      reads this
    {
      && WatchersValid() && started >= mark
      && done <= toBeUpdated.Keys
      && registries == Replaced(r, toBeUpdated, fails, done)
      && Carries(watchers, w, mark, done)
      && (errHappened <==> AnyOf(done, fails))
    }

    method ReplaceOne(k: string, toBeUpdated: map<string, RegistryConfig>, fails: set<string>, err: bool,
      ghost r: map<string, RegistryConfig>, ghost w: map<string, nat>, ghost mark: nat, ghost done: set<string>)
      returns (errHappened: bool)
      requires ReplaceSoFar(r, w, mark, toBeUpdated, fails, done, err)
      requires toBeUpdated.Keys <= r.Keys && k in toBeUpdated && k !in done
      modifies `registries, `watchers, `started, `stops
      ensures ReplaceSoFar(r, w, mark, toBeUpdated, fails, done + {k}, errHappened)
    {
      SameKeys();
      hide WatchersValid, Replaced, AnyOf, Carries;
      ReplacedStep(r, toBeUpdated, fails, done, k);
      CarriesSet(watchers, w, mark, done, k, started);
      AnyOfStep(done, fails, k);
      Remove(k);
      var ok := Add(k, toBeUpdated[k], fails);
      errHappened := err || !ok;
    }

    method ReplaceUpdated(toBeUpdated: map<string, RegistryConfig>, fails: set<string>) returns (errHappened: bool)
      requires WatchersValid() && toBeUpdated.Keys <= registries.Keys
      modifies `registries, `watchers, `started, `stops
      ensures ReplaceSoFar(
                old(registries), old(watchers), old(started), toBeUpdated, fails, toBeUpdated.Keys, errHappened)
    {
      errHappened := false;
      var keys := toBeUpdated.Keys;
      ghost var done := {};
      ReplacedNone(registries, toBeUpdated, fails);
      AnyOfNone(fails);
      while keys != {}
        invariant keys !! done && keys + done == toBeUpdated.Keys
        invariant ReplaceSoFar(old(registries), old(watchers), old(started), toBeUpdated, fails, done, errHappened)
        decreases keys
      {
        hide ReplaceSoFar;
        var k :| k in keys;
        errHappened := ReplaceOne(
          k, toBeUpdated, fails, errHappened, old(registries), old(watchers), old(started), done);
        keys, done := keys - {k}, done + {k};
      }
      assert done == toBeUpdated.Keys;
    }

    /** Registries r and watchers w as the loop found them, the keys `done` gone through since. */
    ghost predicate AddSoFar(
      r: map<string, RegistryConfig>, w: map<string, nat>, mark: nat,
      toBeCreated: map<string, RegistryConfig>, fails: set<string>, done: set<string>, errHappened: bool)
      reads this
    {
      && WatchersValid() && started >= mark
      && done <= toBeCreated.Keys
      && registries == Added(r, toBeCreated, fails, done)
      && Carries(watchers, w, mark, done)
      && (errHappened <==> AnyOf(done, fails))
    }

    method AddOne(k: string, toBeCreated: map<string, RegistryConfig>, fails: set<string>, err: bool,
      ghost r: map<string, RegistryConfig>, ghost w: map<string, nat>, ghost mark: nat, ghost done: set<string>)
      returns (errHappened: bool)
      requires AddSoFar(r, w, mark, toBeCreated, fails, done, err)
      requires toBeCreated.Keys !! r.Keys && k in toBeCreated && k !in done
      modifies `registries, `watchers, `started
      ensures AddSoFar(r, w, mark, toBeCreated, fails, done + {k}, errHappened)
    {
      SameKeys();
      hide WatchersValid, Added, AnyOf, Carries;
      AddedStep(r, toBeCreated, fails, done, k);
      CarriesSet(watchers, w, mark, done, k, started);
      AnyOfStep(done, fails, k);
      var ok := Add(k, toBeCreated[k], fails);
      errHappened := err || !ok;
    }

    method AddCreated(toBeCreated: map<string, RegistryConfig>, fails: set<string>) returns (errHappened: bool)
      requires WatchersValid() && toBeCreated.Keys !! registries.Keys
      modifies `registries, `watchers, `started
      ensures AddSoFar(
                old(registries), old(watchers), old(started), toBeCreated, fails, toBeCreated.Keys, errHappened)
    {
      errHappened := false;
      var keys := toBeCreated.Keys;
      ghost var done := {};
      AddedNone(registries, toBeCreated, fails);
      AnyOfNone(fails);
      while keys != {}
        invariant keys !! done && keys + done == toBeCreated.Keys
        invariant AddSoFar(old(registries), old(watchers), old(started), toBeCreated, fails, done, errHappened)
        decreases keys
      {
        hide AddSoFar;
        var k :| k in keys;
        errHappened := AddOne(
          k, toBeCreated, fails, errHappened, old(registries), old(watchers), old(started), done);
        keys, done := keys - {k}, done + {k};
      }
      assert done == toBeCreated.Keys;
    }

    lemma SameKeys()
      requires WatchersValid()
      ensures registries.Keys == watchers.Keys
    {
    }

    /**
     `fails` are the keys for which generating a watcher fails in this call, `timedOut` whether the
     started watchers are not ready in time. An unchanged registry keeps its watcher, and every other
     one gets a watcher started in this call.
     */
    method ReconcileRegistries(list: seq<RegistryConfig>, fails: set<string>, timedOut: bool) returns (outcome: Outcome)
      requires WatchersValid()
      modifies `registries, `watchers, `started, `stops
      ensures WatchersValid()
      ensures registries == AfterRegistries(old(registries), ByKey(list), fails)
      ensures Carries(watchers, old(watchers), old(started), Generated(old(registries), ByKey(list)))
      ensures outcome == if AnyOf(Generated(old(registries), ByKey(list)), fails) then WatcherFailed
                         else if timedOut then NotReady else Done
    {
      var newRegistries := IndexByKey(list);
      hide WatchersValid, Created, Updated, Gone, Replaced, Added;
      var toBeCreated, toBeUpdated, toBeDeleted := Diff(registries, newRegistries);
      Combined(registries, newRegistries, fails);
      hide Carries, Generated, AfterRegistries;
      RemoveDeleted(toBeDeleted);
      ghost var w1 := watchers;
      var updateFailed := ReplaceUpdated(toBeUpdated, fails);
      ghost var w2, later := watchers, started;
      var createFailed := AddCreated(toBeCreated, fails);
      CarriesOn(watchers, w2, w1, old(watchers), later, old(started), toBeCreated.Keys, toBeUpdated.Keys);
      var errHappened := updateFailed || createFailed;
      if errHappened {
        return WatcherFailed;
      }
      if timedOut {
        return NotReady;
      }
      return Done;
    }

    /** The proxies p as the loops found them, the keys `gone` deleted and the keys `done` updated since. */
    ghost predicate ProxiesSoFar(
      p: map<string, ProxyConfig>, now: map<string, ProxyConfig>, gone: set<string>, done: set<string>)
      requires done <= now.Keys
      reads `proxies, cache
    {
      && cache.deferredDeleteProxies == gone
      && gone !! proxies.Keys && cache.pw.Keys == proxies.Keys + gone
      && (forall k | k in proxies :: BuildProxyWrapper(patches, proxies[k]) == Some(cache.pw[k].data))
      && proxies == ProxiesAfter(patches, p, now, gone, done)
    }

    ghost function Services(): CachedServices
      reads cache
    {
      CachedServices(cache.sew, cache.toBeUpdated, cache.toBeDeleted, cache.deferredDeleteServices)
    }

    /** The services in the cache are as they were, but that those of the names `renewed` do not await deletion. */
    ghost predicate ServicesKept(was: CachedServices, renewed: set<string>)
      reads cache
    {
      Services() == was.(dying := was.dying - renewed)
    }

    method DeleteOne(
      k: string, ghost p: map<string, ProxyConfig>, now: map<string, ProxyConfig>, ghost gone: set<string>)
      requires ProxiesSoFar(p, now, gone, {}) && k in p && k !in gone && k !in now
      modifies `proxies, cache
      ensures ProxiesSoFar(p, now, gone + {k}, {})
      ensures ServicesKept(old(Services()), {})
    {
      ProxiesDeleted(patches, p, now, gone, k);
      hide ProxiesAfter, BuildProxyWrapper;
      cache.DeleteProxyWrapper(k);
      proxies := proxies - {k};
    }

    method UpdateOne(k: string, ghost p: map<string, ProxyConfig>, now: map<string, ProxyConfig>,
      ghost gone: set<string>, ghost done: set<string>, time: int) returns (notify: bool)
      requires done <= now.Keys && k in now && k !in done && gone !! now.Keys
      requires ProxiesSoFar(p, now, gone, done)
      modifies `proxies, cache
      ensures ProxiesSoFar(p, now, gone, done + {k})
      ensures notify <==> BuildProxyWrapper(patches, now[k]).Some?
      ensures ServicesKept(old(Services()), if notify then {k} else {})
    {
      ProxiesUpdated(patches, p, now, gone, done, k);
      hide ProxiesAfter, BuildProxyWrapper;
      var proxyWrapper := BuildProxyWrapper(patches, now[k]);
      notify := proxyWrapper.Some?;
      if notify {
        cache.UpdateProxyWrapper(k, proxyWrapper.value, time);
        proxies := proxies[k := now[k]];
      }
    }

    lemma NoneSoFar(now: map<string, ProxyConfig>)
      requires ProxiesValid()
      ensures ProxiesSoFar(proxies, now, {}, {})
    {
    }

    lemma AllSoFar(p: map<string, ProxyConfig>, now: map<string, ProxyConfig>, gone: set<string>, done: set<string>)
      requires done <= now.Keys && ProxiesSoFar(p, now, gone, done)
      ensures ProxiesPending() && proxies == ProxiesAfter(patches, p, now, gone, done)
    {
    }

    method DeleteProxies(
      toBeDeleted: map<string, ProxyConfig>, ghost p: map<string, ProxyConfig>, now: map<string, ProxyConfig>)
      returns (notify: bool)
      requires ProxiesSoFar(p, now, {}, {}) && toBeDeleted.Keys <= p.Keys && toBeDeleted.Keys !! now.Keys
      modifies `proxies, cache
      ensures ProxiesSoFar(p, now, toBeDeleted.Keys, {})
      ensures notify <==> toBeDeleted.Keys != {}
      ensures ServicesKept(old(Services()), {})
    {
      hide ProxiesSoFar;
      notify := false;
      var keys := toBeDeleted.Keys;
      ghost var gone := {};
      while keys != {}
        invariant keys !! gone && keys + gone == toBeDeleted.Keys
        invariant ProxiesSoFar(p, now, gone, {})
        invariant notify <==> gone != {}
        invariant ServicesKept(old(Services()), {})
        decreases keys
      {
        var k :| k in keys;
        DeleteOne(k, p, now, gone);
        keys, gone := keys - {k}, gone + {k};
        notify := true;
      }
      assert gone == toBeDeleted.Keys;
    }

    method UpdateProxies(toBeUpdated: map<string, ProxyConfig>, now: map<string, ProxyConfig>, time: int,
      ghost p: map<string, ProxyConfig>, ghost gone: set<string>) returns (notify: bool)
      requires toBeUpdated.Keys <= now.Keys && gone !! now.Keys && ProxiesSoFar(p, now, gone, {})
      modifies `proxies, cache
      ensures ProxiesSoFar(p, now, gone, toBeUpdated.Keys)
      ensures notify <==> AnyBuilt(patches, now, toBeUpdated.Keys)
      ensures ServicesKept(old(Services()), Built(patches, now, toBeUpdated.Keys))
    {
      hide ProxiesSoFar, BuildProxyWrapper;
      notify := false;
      var keys := toBeUpdated.Keys;
      ghost var done := {};
      while keys != {}
        invariant keys !! done && keys + done == toBeUpdated.Keys
        invariant ProxiesSoFar(p, now, gone, done)
        invariant notify <==> AnyBuilt(patches, now, done)
        invariant ServicesKept(old(Services()), Built(patches, now, done))
        decreases keys
      {
        hide AnyBuilt;
        var k :| k in keys;
        AnyBuiltStep(patches, now, done, k);
        var built := UpdateOne(k, p, now, gone, done, time);
        keys, done := keys - {k}, done + {k};
        notify := notify || built;
      }
      assert done == toBeUpdated.Keys;
    }

    /** The recorded proxies are cached as built; other cached ones await deletion. */
    ghost predicate ProxiesPending()
      reads `proxies, cache
    {
      && cache.deferredDeleteProxies !! proxies.Keys && cache.pw.Keys == proxies.Keys + cache.deferredDeleteProxies
      && forall k | k in proxies :: BuildProxyWrapper(patches, proxies[k]) == Some(cache.pw[k].data)
    }

    /**
     The recorded proxies become those of the spec; the cache follows, with the deletions deferred. The
     update handler is called exactly if the record changes.
     */
    method ReconcileProxies(list: seq<ProxyConfig>, time: int)
      requires ProxiesValid()
      modifies `proxies, `notices, cache
      ensures ProxiesPending()
      ensures proxies == AfterProxies(patches, old(proxies), ByName(list))
      ensures notices == old(notices) + if proxies != old(proxies) then 1 else 0
      ensures ServicesKept(old(Services()), Renewed(patches, old(proxies), ByName(list)))
    {
      hide Gone, Created, Updated, AfterProxies, BuildProxyWrapper, AnyBuilt, ProxiesAfter;
      hide ProxiesValid, ProxiesPending, ProxiesSoFar;
      ghost var p := proxies;
      var newProxies := IndexByName(list);
      ProxiesAll(patches, p, newProxies);
      BuiltAll(patches, p, newProxies);
      ProxiesChange(patches, p, newProxies);
      NoneSoFar(newProxies);
      var created, updated, toBeDeleted := Diff(proxies, newProxies);
      UnionKeys(created, updated);
      var toBeUpdated := created + updated;
      var deleteNotify := DeleteProxies(toBeDeleted, p, newProxies);
      var updateNotify := UpdateProxies(toBeUpdated, newProxies, time, p, toBeDeleted.Keys);
      AllSoFar(p, newProxies, toBeDeleted.Keys, toBeUpdated.Keys);
      var needNotify := deleteNotify || updateNotify;
      if needNotify {
        notices := notices + 1;
      }
    }

    method PurgeStaleItems() returns (purged: bool)
      requires ProxiesPending()
      modifies cache
      ensures ProxiesValid()
      ensures Services() == old(Services()).(sew := old(cache.sew) - old(cache.deferredDeleteServices), dying := {})
    {
      hide BuildProxyWrapper;
      purged := cache.PurgeStaleItems();
    }

    ghost predicate Valid()
      reads this, cache
    {
      WatchersValid() && ProxiesValid()
    }

    /**
     One reconciliation. When ports are filled in, saving the spec is all it does; otherwise the
     registries are brought in line, and if that succeeds the proxies, and everything stale is purged.
     A saved spec needs no filling, so reconciling it again does not save it again.
     */
    method Reconcile(bridge: Option<Bridge>, fails: set<string>, timedOut: bool, saveFails: bool, time: int)
      returns (outcome: Outcome)
      requires Valid()
      modifies this, cache
      ensures Valid()
      ensures var spec := if bridge.Some? then bridge.value else Bridge([], []);
              if Fill(Ports(spec.proxies)) != Ports(spec.proxies) then
                && (if saveFails then outcome == SaveFailed
                    else outcome.Saved? && Ports(outcome.proxies) == Fill(Ports(spec.proxies))
                         && SameButPorts(outcome.proxies, spec.proxies))
                && registries == old(registries) && watchers == old(watchers) && proxies == old(proxies)
                && cache.Contents() == old(cache.Contents())
              else
                && registries == AfterRegistries(old(registries), ByKey(spec.registries), fails)
                && (outcome == if AnyOf(Generated(old(registries), ByKey(spec.registries)), fails) then WatcherFailed
                               else if timedOut then NotReady else Done)
                && proxies == (if outcome.Done? then AfterProxies(patches, old(proxies), ByName(spec.proxies))
                               else old(proxies))
                && Carries(watchers, old(watchers), old(started), Generated(old(registries), ByKey(spec.registries)))
                && cache.toBeUpdated == old(cache.toBeUpdated) && cache.toBeDeleted == old(cache.toBeDeleted)
                && (if outcome.Done? then
                      cache.deferredDeleteServices == {}
                      && cache.sew == old(cache.sew) - (old(cache.deferredDeleteServices)
                                                        - Renewed(patches, old(proxies), ByName(spec.proxies)))
                    else
                      cache.sew == old(cache.sew) && cache.deferredDeleteServices == old(cache.deferredDeleteServices))
      ensures outcome.Saved? ==> Fill(Ports(outcome.proxies)) == Ports(outcome.proxies)
    {
      hide WatchersValid, ProxiesValid, ProxiesPending, Carries;
      hide AfterRegistries, AfterProxies, Generated, AnyOf, Fill, Ports;
      var specRegistries, specProxies := [], [];
      FillsNothing([], 0);
      assert Fill(Ports([])) == Ports([]) by { FillNone(); }
      if bridge.Some? {
        var filled, copy := FilledCopy(bridge.value.proxies);
        if filled {
          FillTwice(Ports(bridge.value.proxies));
          return if saveFails then SaveFailed else Saved(copy);
        }
        specRegistries, specProxies := bridge.value.registries, bridge.value.proxies;
      }
      outcome := ReconcileRegistries(specRegistries, fails, timedOut);
      if !outcome.Done? {
        return;
      }
      ReconcileProxies(specProxies, time);
      var purged := PurgeStaleItems();
      if purged {
        notices := notices + 1;
      }
    }
  }

  /** The proxies p with the keys `gone` dropped and those of the keys `done` that can be built renewed. */
  function ProxiesAfter(patches: Renderer, p: map<string, ProxyConfig>, now: map<string, ProxyConfig>,
    gone: set<string>, done: set<string>): map<string, ProxyConfig>
    requires done <= now.Keys
  {
    (p - gone) + map k | k in now && k in done && BuildProxyWrapper(patches, now[k]).Some? :: now[k]
  }

  lemma UnionKeys<T>(a: map<string, T>, b: map<string, T>)
    ensures (a + b).Keys == a.Keys + b.Keys
  {
  }

  lemma ProxiesDeleted(patches: Renderer, p: map<string, ProxyConfig>, now: map<string, ProxyConfig>,
    gone: set<string>, k: string)
    requires k in p && k !in gone
    ensures k in ProxiesAfter(patches, p, now, gone, {})
    ensures ProxiesAfter(patches, p, now, gone + {k}, {}) == ProxiesAfter(patches, p, now, gone, {}) - {k}
  {
  }

  lemma ProxiesUpdated(patches: Renderer, p: map<string, ProxyConfig>, now: map<string, ProxyConfig>,
    gone: set<string>, done: set<string>, k: string)
    requires done <= now.Keys && k in now
    ensures var r := ProxiesAfter(patches, p, now, gone, done);
            ProxiesAfter(patches, p, now, gone, done + {k})
            == if BuildProxyWrapper(patches, now[k]).Some? then r[k := now[k]] else r
  {
    hide BuildProxyWrapper;
  }

  /** The keys among `done` whose wrapper could be built. */
  function Built(patches: Renderer, now: map<string, ProxyConfig>, done: set<string>): set<string>
    requires done <= now.Keys
  {
    set k | k in done && BuildProxyWrapper(patches, now[k]).Some?
  }

  /** The new and changed proxies whose wrapper could be built; line 243 of cache.go takes their names for services. */
  function Renewed(patches: Renderer, was: map<string, ProxyConfig>, now: map<string, ProxyConfig>): set<string> {
    set k | k in now && (k !in was || was[k] != now[k]) && BuildProxyWrapper(patches, now[k]).Some?
  }

  predicate AnyBuilt(patches: Renderer, now: map<string, ProxyConfig>, done: set<string>)
    requires done <= now.Keys
  {
    exists k | k in done :: BuildProxyWrapper(patches, now[k]).Some?
  }

  lemma AnyBuiltStep(patches: Renderer, now: map<string, ProxyConfig>, done: set<string>, k: string)
    requires done <= now.Keys && k in now
    ensures AnyBuilt(patches, now, done + {k})
            <==> AnyBuilt(patches, now, done) || BuildProxyWrapper(patches, now[k]).Some?
  {
  }

  lemma ProxiesAll(patches: Renderer, p: map<string, ProxyConfig>, now: map<string, ProxyConfig>)
    ensures var gone, done := Gone(p, now).Keys, Created(p, now).Keys + Updated(p, now).Keys;
            && gone <= p.Keys && gone !! now.Keys && done <= now.Keys
            && ProxiesAfter(patches, p, now, gone, done) == AfterProxies(patches, p, now)
  {
    hide BuildProxyWrapper;
  }

  lemma BuiltAll(patches: Renderer, p: map<string, ProxyConfig>, now: map<string, ProxyConfig>)
    ensures var done := Created(p, now).Keys + Updated(p, now).Keys;
            done <= now.Keys && Built(patches, now, done) == Renewed(patches, p, now)
  {
    hide BuildProxyWrapper;
  }

  /** The cached proxies change exactly if one is gone or one that is new or changed could be built. */
  lemma ProxiesChange(patches: Renderer, p: map<string, ProxyConfig>, now: map<string, ProxyConfig>)
    ensures var gone, done := Gone(p, now).Keys, Created(p, now).Keys + Updated(p, now).Keys;
            done <= now.Keys
            && (AfterProxies(patches, p, now) != p <==> gone != {} || AnyBuilt(patches, now, done))
  {
    hide BuildProxyWrapper;
    var gone, done := Gone(p, now).Keys, Created(p, now).Keys + Updated(p, now).Keys;
    var r := AfterProxies(patches, p, now);
    if AnyBuilt(patches, now, done) {
      var k :| k in done && BuildProxyWrapper(patches, now[k]).Some?;
      assert k in r && r[k] == now[k];
    } else if gone == {} {
      forall k ensures k in r <==> k in p {
        assert k in p && k !in now ==> k in gone;
        assert k in now && k !in p ==> k in done;
      }
      forall k | k in p ensures r[k] == p[k] {
        assert now[k] != p[k] ==> k in done;
      }
    } else {
      var k :| k in gone;
      assert k in p && k !in r;
    }
  }

  lemma FillNone()
    ensures Fill(Ports([])) == Ports([])
  {
  }

  /** Fills the ports of a copy of the spec's proxies, if any is missing. */
  method FilledCopy(proxies: seq<ProxyConfig>) returns (filled: bool, copy: seq<ProxyConfig>)
    ensures filled <==> Fill(Ports(proxies)) != Ports(proxies)
    ensures filled ==> Ports(copy) == Fill(Ports(proxies)) && SameButPorts(copy, proxies)
  {
    var a := new ProxyConfig[|proxies|](i requires 0 <= i < |proxies| => proxies[i]);
    assert a[..] == proxies;
    AssignsAllItCan(Ports(proxies));
    var need := NeedToFillProxyListenerPorts(a);
    filled := false;
    if need {
      filled := FillProxyListenerPorts(a);
      SamePorts(proxies, a[..]);
    }
    copy := a[..];
  }

  /** The same proxies in the same order, but for their listener ports. */
  predicate SameButPorts(q: seq<ProxyConfig>, p: seq<ProxyConfig>) {
    |q| == |p| && forall i | 0 <= i < |p| :: q[i] == p[i].(listenerPort := q[i].listenerPort)
  }

  lemma SamePorts(p: seq<ProxyConfig>, q: seq<ProxyConfig>)
    requires SameButPorts(q, p)
    ensures p == q <==> Ports(p) == Ports(q)
  {
  }
}
