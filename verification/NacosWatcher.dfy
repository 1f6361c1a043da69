/**
 fetchAllServices of nacos/v2/watcher.go: the service lists of all groups are fetched page by page
 with a bounded number of retries, and the subscriptions are brought in line with what was fetched.
 */
module NacosWatcher {
  import opened Strings

  const PAGE_SIZE := 50
  const JOINER := "@@"

  /** How a run ends. Nil is Go's nil error. */
  datatype Outcome = Nil | FetchFailed | UnsubscribeFailed | SubscribeFailed

  // ---- Keys ----

  function Key(group: string, service: string): string { group + JOINER + service }

  /** strings.Split(key, "@@")[0] and [1], for a key that holds the joiner. */
  function GroupOf(key: string): string
    requires Index(key, JOINER) >= 0
  {
    key[..Index(key, JOINER)]
  }

  function ServiceOf(key: string): string
    requires Index(key, JOINER) >= 0
  {
    var rest := key[Index(key, JOINER) + |JOINER|..];
    if Index(rest, JOINER) == -1 then rest else rest[..Index(rest, JOINER)]
  }

  predicate ShouldSubscribe(service: string) {
    !HasPrefix(service, "consumers:") && service != ""
  }

  lemma KeyHasJoiner(group: string, service: string)
    ensures 0 <= Index(Key(group, service), JOINER) <= |group|
  {
    assert At(Key(group, service), JOINER, |group|);
  }

  /** What splitting does when the joiner does not occur earlier than where it was put. */
  lemma SplitAt(group: string, service: string)
    requires Index(Key(group, service), JOINER) == |group|
    ensures GroupOf(Key(group, service)) == group
    ensures ServiceOf(Key(group, service)) == service <==> Index(service, JOINER) == -1
  {
  }

  /**
   Splitting a key gives back its group and its service exactly if neither holds the joiner and the
   group does not end in '@'.
   */
  lemma SplitIff(group: string, service: string)
    ensures Key(group, service) == group + "@@" + service && Index(Key(group, service), "@@") >= 0
    ensures GroupOf(Key(group, service)) == group && ServiceOf(Key(group, service)) == service
            <==> Index(group, "@@") == -1 && Index(service, "@@") == -1 && !HasSuffix(group, "@")
  {
    var key := Key(group, service);
    var n := |group|;
    KeyHasJoiner(group, service);
    forall j: nat | j + 2 <= n ensures At(key, JOINER, j) <==> At(group, JOINER, j) {
      assert key[j..j + 2] == group[j..j + 2];
    }
    if n > 0 {
      assert key[n - 1..n + 1] == [group[n - 1], '@'];
      assert HasSuffix(group, "@") <==> group[n - 1] == '@' by { assert group[n - 1..] == [group[n - 1]]; }
      assert At(key, JOINER, n - 1) <==> HasSuffix(group, "@");
    }
    if Index(key, JOINER) == n {
      SplitAt(group, service);
      assert Index(group, JOINER) == -1;
    }
  }

  // ---- Pages ----

  /** Page p of the group at index g, as the call that succeeds for it returns it. */
  type Pages = (nat, nat) -> seq<string>

  /** The first page that is not full, counted from 1. */
  predicate IsLast(pages: Pages, g: nat, p: nat) {
    p >= 1 && |pages(g, p)| < PAGE_SIZE && forall q | 1 <= q < p :: |pages(g, q)| >= PAGE_SIZE
  }

  lemma LastIsFirstShort(pages: Pages, g: nat, last: nat)
    requires IsLast(pages, g, last)
    ensures last >= 1
    ensures forall p: nat | 1 <= p <= last :: |pages(g, p)| < 50 <==> p == last
  {
  }

  ghost predicate HasEnd(pages: Pages, g: nat) { exists p: nat :: IsLast(pages, g, p) }

  /** All it takes is one page with fewer than fifty names. */
  lemma {:induction false} ShortPageEnds(pages: Pages, g: nat, p: nat)
    requires p >= 1 && |pages(g, p)| < 50
    ensures HasEnd(pages, g)
    decreases p
  {
    if q :| 1 <= q < p && |pages(g, q)| < PAGE_SIZE {
      ShortPageEnds(pages, g, q);
    } else {
      assert IsLast(pages, g, p);
    }
  }

  /** The keys on the first n pages of the group at index g. */
  function KeysOf(group: string, pages: Pages, g: nat, n: nat): set<string> {
    if n == 0 then {} else KeysOf(group, pages, g, n - 1) + set s | s in pages(g, n) :: Key(group, s)
  }

  lemma KeysOfPages(group: string, pages: Pages, g: nat)
    ensures KeysOf(group, pages, g, 0) == {}
    ensures forall n: nat | n > 0 ::
              KeysOf(group, pages, g, n) == KeysOf(group, pages, g, n - 1) + set s | s in pages(g, n) :: Key(group, s)
  {
  }

  /** The keys of the groups, the first ends[g] pages of each. */
  function Fetched(groups: seq<string>, pages: Pages, ends: seq<nat>): set<string>
    requires |ends| <= |groups|
  {
    if ends == [] then {}
    else
      var g := |ends| - 1;
      Fetched(groups, pages, ends[..g]) + KeysOf(groups[g], pages, g, ends[g])
  }

  lemma {:induction false} KeysOfIff(group: string, pages: Pages, g: nat, n: nat, k: string)
    ensures k in KeysOf(group, pages, g, n)
            <==> exists p, s | 1 <= p <= n && s in pages(g, p) :: k == group + "@@" + s
  {
    if n > 0 { KeysOfIff(group, pages, g, n - 1, k); }
  }

  /** What is fetched: a key for every name on every page of every group, up to each group's end. */
  lemma {:induction false} FetchedIff(groups: seq<string>, pages: Pages, ends: seq<nat>, k: string)
    requires |ends| <= |groups|
    ensures k in Fetched(groups, pages, ends)
            <==> exists g, p, s | 0 <= g < |ends| && 1 <= p <= ends[g] && s in pages(g, p) :: k == groups[g] + "@@" + s
  {
    if ends != [] {
      var g := |ends| - 1;
      FetchedIff(groups, pages, ends[..g], k);
      KeysOfIff(groups[g], pages, g, ends[g], k);
    }
  }

  function Sum(ends: seq<nat>): nat {
    if ends == [] then 0 else Sum(ends[..|ends| - 1]) + ends[|ends| - 1]
  }

  /** How many of the first n calls fail. */
  function Failures(fails: nat -> bool, n: nat): nat {
    if n == 0 then 0 else Failures(fails, n - 1) + if fails(n - 1) then 1 else 0
  }

  lemma {:induction false} FailuresAre(fails: nat -> bool, n: nat)
    ensures Failures(fails, n) == |set i: nat | i < n && fails(i)|
  {
    var s := set i: nat | i < n && fails(i);
    if n == 0 {
      assert s == {};
    } else {
      FailuresAre(fails, n - 1);
      var t := set i: nat | i < n - 1 && fails(i);
      assert s == if fails(n - 1) then t + {n - 1} else t;
    }
  }

  ghost predicate Ends(pages: Pages, ends: seq<nat>) {
    forall g | 0 <= g < |ends| :: IsLast(pages, g, ends[g])
  }

  /** The pages read of a group are those up to the first with fewer than fifty names. */
  lemma EndsAt(pages: Pages, ends: seq<nat>, g: nat)
    requires Ends(pages, ends) && g < |ends|
    ensures ends[g] >= 1 && |pages(g, ends[g])| < 50 && forall q | 1 <= q < ends[g] :: |pages(g, q)| >= 50
  {
  }

  predicate Passes(key: string) { Index(key, JOINER) >= 0 && ShouldSubscribe(ServiceOf(key)) }

  /** All keys that are to be watched. */
  function Wanted(keys: set<string>): set<string> { set k | k in keys && Passes(k) }

  /** Wanted are the keys of services that have a name, and one that does not start with "consumers:". */
  lemma WantedIff(keys: set<string>, group: string, service: string)
    requires Index(group, "@@") == -1 && Index(service, "@@") == -1 && !HasSuffix(group, "@")
    ensures var k := group + "@@" + service;
            k in Wanted(keys)
            <==> k in keys && service != "" && !(exists t: string :: service == "consumers:" + t)
  {
    SplitIff(group, service);
    PrefixIff(service, "consumers:");
  }

  lemma WantedStep(keys: set<string>, key: string)
    ensures Wanted(keys + {key}) == Wanted(keys) + if Passes(key) then {key} else {}
  {
  }

  ghost predicate AreKeys(keys: set<string>) { forall k | k in keys :: Index(k, JOINER) >= 0 }

  lemma {:induction false} KeysAreKeys(group: string, pages: Pages, g: nat, n: nat)
    ensures AreKeys(KeysOf(group, pages, g, n))
  {
    if n > 0 {
      KeysAreKeys(group, pages, g, n - 1);
      forall s | s in pages(g, n) ensures Index(Key(group, s), JOINER) >= 0 { KeyHasJoiner(group, s); }
    }
  }

  lemma {:induction false} FetchedAreKeys(groups: seq<string>, pages: Pages, ends: seq<nat>)
    requires |ends| <= |groups|
    ensures AreKeys(Fetched(groups, pages, ends))
  {
    if ends != [] {
      var g := |ends| - 1;
      FetchedAreKeys(groups, pages, ends[..g]);
      KeysAreKeys(groups[g], pages, g, ends[g]);
    }
  }

  /** What is watched after a run in which at most subscriptions failed, those of `subFails`. */
  function AfterRun(wanted: set<string>, was: set<string>, subFails: set<string>): set<string> {
    wanted - ((wanted - was) * subFails)
  }

  function AfterRuns(wanted: set<string>, was: set<string>, runs: seq<set<string>>): set<string> {
    if runs == [] then was else AfterRun(wanted, AfterRuns(wanted, was, runs[..|runs| - 1]), runs[|runs| - 1])
  }

  /**
   Each run attempts the missing keys only, so over any number of runs what is still missing is what was
   not watched at first and failed in every one of them.
   */
  lemma {:induction false} MissingFailedInEveryRun(wanted: set<string>, was: set<string>, runs: seq<set<string>>)
    requires runs != []
    ensures AfterRuns(wanted, was, runs)
            == set k | k in wanted && (k in was || exists i | 0 <= i < |runs| :: k !in runs[i])
  {
    var n := |runs| - 1;
    if n > 0 {
      MissingFailedInEveryRun(wanted, was, runs[..n]);
      forall k | k in wanted
        ensures (exists i | 0 <= i < |runs| :: k !in runs[i])
                <==> (exists i | 0 <= i < n :: k !in runs[..n][i]) || k !in runs[n]
      {
        assert forall i | 0 <= i < n :: runs[..n][i] == runs[i];
      }
    } else {
      assert runs[..n] == [];
    }
  }

  lemma NothingFetched(groups: seq<string>, pages: Pages)
    ensures Fetched(groups, pages, []) == {} && Sum([]) == 0
  {
  }

  lemma GroupFetched(groups: seq<string>, pages: Pages, ends: seq<nat>, page: nat)
    requires |ends| < |groups|
    ensures var more := ends + [page];
            && Sum(more) == Sum(ends) + page
            && Fetched(groups, pages, more)
               == Fetched(groups, pages, ends) + KeysOf(groups[|ends|], pages, |ends|, page)
  {
    assert (ends + [page])[..|ends|] == ends;
  }

  class Watcher {
    const groups: seq<string>
    var watching: set<string>
    var isStop: bool

    /** Everything watched is a key that passes the filter. */
    ghost predicate Valid()
      reads this
    {
      watching == Wanted(watching)
    }

    constructor (groups: seq<string>)
      ensures Valid() && this.groups == groups && watching == {} && !isStop
    {
      this.groups, watching, isStop := groups, {}, false;
    }

    /**
     The paging loop. Call number n fails if fails(n). No more than twelve calls fail over all groups,
     and a page whose call failed is asked for again: every page up to the first one that is not full is
     fetched in exactly one successful call.
     */
    method Fetch(pages: Pages, fails: nat -> bool)
      returns (ok: bool, keys: set<string>, calls: nat, ghost ends: seq<nat>)
      requires forall g | 0 <= g < |groups| :: HasEnd(pages, g)
      ensures ok ==> |ends| == |groups| && Ends(pages, ends) && keys == Fetched(groups, pages, ends)
      ensures ok ==> calls == Sum(ends) + Failures(fails, calls) && Failures(fails, calls) <= 11
      ensures !ok ==> Failures(fails, calls) == 12
    {
      hide IsLast, KeysOf, Fetched, Sum;
      NothingFetched(groups, pages);
      ok, keys, calls, ends := true, {}, 0, [];
      var tries := 0;
      for g := 0 to |groups|
        invariant ok && |ends| == g && Ends(pages, ends)
        invariant keys == Fetched(groups, pages, ends)
        invariant calls == Sum(ends) + tries && tries == Failures(fails, calls) <= 11
      {
        assert HasEnd(pages, g);
        ghost var last: nat :| IsLast(pages, g, last);
        LastIsFirstShort(pages, g, last);
        KeysOfPages(groups[g], pages, g);
        ghost var before := keys;
        var page := 1;
        var more := true;
        while more
          invariant 1 <= page <= last && (!more ==> page == last)
          invariant keys == before + KeysOf(groups[g], pages, g, if more then page - 1 else page)
          invariant calls == Sum(ends) + tries + (if more then page - 1 else page)
          invariant tries == Failures(fails, calls) <= 11
          decreases more, last - page, 11 - tries
        {
          calls := calls + 1;
          if fails(calls - 1) {
            if tries > 10 {
              ok := false;
              return;
            }
            tries := tries + 1;
            continue;
          }
          var doms := pages(g, page);
          keys := keys + set s | s in doms :: Key(groups[g], s);
          if |doms| < PAGE_SIZE {
            more := false;
          } else {
            page := page + 1;
          }
        }
        GroupFetched(groups, pages, ends, page);
        ends := ends + [page];
      }
    }

    /**
     Keys that were not fetched are unsubscribed and dropped, in any order, until that fails for one of
     `unsubFails`.
     */
    method DropStale(fetched: set<string>, unsubFails: set<string>) returns (ok: bool)
      requires Valid()
      modifies `watching
      ensures Valid() && old(watching) * fetched <= watching <= old(watching)
      ensures ok <==> (old(watching) - fetched) * unsubFails == {}
      ensures ok ==> watching == old(watching) * fetched
    {
      hide Passes;
      var keys := watching;
      while keys != {}
        invariant keys <= watching <= old(watching)
        invariant watching == old(watching) * fetched + keys
        invariant (old(watching) - fetched - keys) * unsubFails == {}
        decreases keys
      {
        var key :| key in keys;
        if key !in fetched {
          if key in unsubFails {
            assert key in (old(watching) - fetched) * unsubFails;
            return false;
          }
          watching := watching - {key};
        }
        keys := keys - {key};
      }
      ok := true;
    }

    /**
     Every fetched key that passes the filter and is not watched yet is subscribed; those for which
     that succeeds are watched from then on.
     */
    method SubscribeNew(fetched: set<string>, subFails: set<string>) returns (ok: bool, attempted: set<string>)
      requires Valid() && AreKeys(fetched)
      modifies `watching
      ensures Valid() && attempted == Wanted(fetched) - old(watching)
      ensures watching == old(watching) + (attempted - subFails)
      ensures ok <==> attempted * subFails == {}
    {
      hide ShouldSubscribe, ServiceOf;
      var keys := fetched;
      var watchingKeys := {};
      ok, attempted := true, {};
      while keys != {}
        invariant keys <= fetched && watching == old(watching)
        invariant attempted == Wanted(fetched - keys) - watching
        invariant watchingKeys == attempted - subFails
        invariant ok <==> attempted * subFails == {}
        decreases keys
      {
        var key :| key in keys;
        keys := keys - {key};
        WantedStep(fetched - keys - {key}, key);
        assert fetched - keys == fetched - keys - {key} + {key};
        if key !in watching && ShouldSubscribe(ServiceOf(key)) {
          attempted := attempted + {key};
          if key in subFails {
            assert key in attempted * subFails;
            ok := false;
          } else {
            watchingKeys := watchingKeys + {key};
          }
        }
      }
      watching := watching + watchingKeys;
    }

    /**
     One run. On a nil return of a watcher that is not stopped, exactly the fetched keys that pass the
     filter are watched; after a failed subscription, all of them but the failed ones; and a failure
     before that drops at most what was not fetched.
     */
    method FetchAllServices(pages: Pages, fails: nat -> bool, unsubFails: set<string>, subFails: set<string>)
      returns (outcome: Outcome, attempted: set<string>, ghost ends: seq<nat>)
      requires Valid()
      requires forall g | 0 <= g < |groups| :: HasEnd(pages, g)
      modifies `watching
      ensures Valid()
      ensures isStop ==> outcome == Nil && watching == old(watching)
      ensures outcome == FetchFailed ==> watching == old(watching)
      ensures !isStop && outcome != FetchFailed ==>
                && |ends| == |groups| && Ends(pages, ends)
                && var fetched := Fetched(groups, pages, ends);
                   var wanted := Wanted(fetched);
                   if (old(watching) - fetched) * unsubFails != {} then
                     outcome == UnsubscribeFailed && old(watching) * fetched <= watching <= old(watching)
                   else
                     && attempted == wanted - old(watching)
                     && watching == AfterRun(wanted, old(watching), subFails)
                     && outcome == if attempted * subFails == {} then Nil else SubscribeFailed
    {
      attempted, ends := {}, [];
      if isStop {
        return Nil, {}, [];
      }
      var ok, fetchedServices, calls;
      ok, fetchedServices, calls, ends := Fetch(pages, fails);
      if !ok {
        return FetchFailed, {}, ends;
      }
      FetchedAreKeys(groups, pages, ends);
      ok := DropStale(fetchedServices, unsubFails);
      if !ok {
        return UnsubscribeFailed, {}, ends;
      }
      ok, attempted := SubscribeNew(fetchedServices, subFails);
      outcome := if ok then Nil else SubscribeFailed;
    }
  }
}
