/**
 The fixed-window limiter of rate_limit_handler.go: a Lua script counts a Redis key down, and the key
 disappears when its window is over.
 */
module RateLimit {
  import opened Strings
  import opened Wrappers

  /** limit and window (in seconds) of the configuration. */
  datatype Config = Config(limit: int, window: int)

  /** A Redis key with its remaining count and the time, in milliseconds, at which it expires. */
  datatype Counter = Counter(remaining: int, expireAt: int)

  /**
   A request: when the script runs, and whether a key that expires at that very moment is still there,
   which Redis versions answer differently.
   */
  datatype Request = Request(at: int, lingers: bool)

  function WindowMillis(c: Config): int { 1000 * c.window }

  /** The script's ttl call gives a negative number: there is no such key, or it has expired. */
  predicate Gone(key: Option<Counter>, r: Request) {
    key.None? || r.at > key.value.expireAt || (r.at == key.value.expireAt && !r.lingers)
  }

  /** The key after LimitScript. SET with an expiry that is not positive is an error and sets nothing. */
  function Script(c: Config, key: Option<Counter>, r: Request): Option<Counter> {
    if Gone(key, r) then
      if c.window <= 0 then None else Some(Counter(c.limit - 1, r.at + WindowMillis(c)))
    else Some(Counter(key.value.remaining - 1, key.value.expireAt))
  }

  /** The requests on one key, in the order of a clock that does not run backwards. */
  ghost predicate InOrder(rs: seq<Request>) { forall i, j | 0 <= i < j < |rs| :: rs[i].at <= rs[j].at }

  function KeyAfter(c: Config, rs: seq<Request>): Option<Counter> {
    if rs == [] then None else Script(c, KeyAfter(c, rs[..|rs| - 1]), rs[|rs| - 1])
  }

  /** Request i finds no key, so the script starts a window. */
  predicate Opens(c: Config, rs: seq<Request>, i: nat)
    requires i < |rs|
  {
    Gone(KeyAfter(c, rs[..i]), rs[i])
  }

  /** The handler lets request i through: the script succeeds and nothing is overdrawn. */
  predicate Allowed(c: Config, rs: seq<Request>, i: nat)
    requires i < |rs|
  {
    var key := KeyAfter(c, rs[..i + 1]);
    key.Some? && key.value.remaining >= 0
  }

  /** The request that started the window of request i. */
  function Opener(c: Config, rs: seq<Request>, i: nat): (o: nat)
    requires i < |rs|
    ensures o <= i && Opens(c, rs, o) && forall j | o < j <= i :: !Opens(c, rs, j)
  {
    if Opens(c, rs, i) then i
    else
      assert i > 0 by { assert rs[..0] == []; }
      Opener(c, rs, i - 1)
  }

  function Count(c: Config, rs: seq<Request>, lo: nat, hi: nat): nat
    requires lo <= hi <= |rs|
  {
    if lo == hi then 0 else Count(c, rs, lo, hi - 1) + if Allowed(c, rs, hi - 1) then 1 else 0
  }

  function Max(a: int, b: int): int { if a > b then a else b }

  function Min(a: int, b: int): int { if a < b then a else b }

  // ---- Within one window ----

  /** The key knows how many requests its window has seen and when it was started. */
  lemma {:induction false} KeyIs(c: Config, rs: seq<Request>, i: nat)
    requires c.window > 0 && i < |rs|
    ensures var o := Opener(c, rs, i);
            KeyAfter(c, rs[..i + 1]) == Some(Counter(c.limit - (i - o + 1), rs[o].at + WindowMillis(c)))
  {
    assert rs[..i + 1][..i] == rs[..i];
    if !Opens(c, rs, i) {
      assert i > 0 by { assert rs[..0] == []; }
      KeyIs(c, rs, i - 1);
    }
  }

  /** A request starts a window exactly if it is the first, or the window before it is over or was never set. */
  lemma OpensIff(c: Config, rs: seq<Request>, i: nat)
    requires i < |rs|
    ensures Opens(c, rs, i) <==>
            || c.window <= 0 || i == 0
            || rs[i].at > rs[Opener(c, rs, i - 1)].at + 1000 * c.window
            || (rs[i].at == rs[Opener(c, rs, i - 1)].at + 1000 * c.window && !rs[i].lingers)
  {
    if c.window <= 0 {
      NoWindow(c, rs[..i]);
    } else if i > 0 {
      KeyIs(c, rs, i - 1);
    } else {
      assert rs[..0] == [];
    }
  }

  lemma {:induction false} NoWindow(c: Config, rs: seq<Request>)
    requires c.window <= 0
    ensures KeyAfter(c, rs).None?
  {
    if rs != [] { NoWindow(c, rs[..|rs| - 1]); }
  }

  /** The handler lets through the first `limit` requests of a window, and none at all without a window. */
  lemma AllowedIff(c: Config, rs: seq<Request>, i: nat)
    requires i < |rs|
    ensures Allowed(c, rs, i) <==> c.window > 0 && i - Opener(c, rs, i) < c.limit
  {
    if c.window > 0 { KeyIs(c, rs, i); } else { NoWindow(c, rs[..i + 1]); }
  }

  /** Of n requests that make up the start of one window, exactly min(n, limit) are let through. */
  lemma {:induction false} WindowCount(c: Config, rs: seq<Request>, lo: nat, hi: nat)
    requires c.window > 0 && lo < hi <= |rs| && Opener(c, rs, hi - 1) == lo
    ensures Count(c, rs, lo, hi) == Min(hi - lo, Max(c.limit, 0))
    decreases hi
  {
    AllowedIff(c, rs, hi - 1);
    if lo < hi - 1 {
      assert Opener(c, rs, hi - 2) == lo;
      WindowCount(c, rs, lo, hi - 1);
    }
  }

  // ---- Over every run ----

  /** A request lies less than a window after the opener of its window only; after that the key is gone. */
  lemma NextWindow(c: Config, rs: seq<Request>, i: nat, p: nat)
    requires c.window > 0 && i < p < |rs| && Opens(c, rs, p) && InOrder(rs)
    ensures rs[p].at >= rs[Opener(c, rs, i)].at + WindowMillis(c)
  {
    hide KeyAfter, Opener, WindowMillis;
    var q := Opener(c, rs, p - 1);
    KeyIs(c, rs, p - 1);
    OpenersGrow(c, rs, i, p - 1);
    assert rs[Opener(c, rs, i)].at <= rs[q].at;
  }

  lemma {:induction false} OpenersGrow(c: Config, rs: seq<Request>, i: nat, j: nat)
    requires i <= j < |rs|
    ensures Opener(c, rs, i) <= Opener(c, rs, j)
    decreases j
  {
  }

  /** Requests lo to hi of one window opened at o: only those before o + limit get through. */
  lemma {:induction false} CountBound(c: Config, rs: seq<Request>, lo: nat, hi: nat, o: nat)
    requires o <= lo <= hi <= |rs| && forall i | lo <= i < hi :: Opener(c, rs, i) == o
    ensures Count(c, rs, lo, hi) <= Max(0, Min(hi, o + c.limit) - lo)
    decreases hi
  {
    if lo < hi {
      AllowedIff(c, rs, hi - 1);
      CountBound(c, rs, lo, hi - 1, o);
    }
  }

  lemma {:induction false} CountSplit(c: Config, rs: seq<Request>, lo: nat, mid: nat, hi: nat)
    requires lo <= mid <= hi <= |rs|
    ensures Count(c, rs, lo, hi) == Count(c, rs, lo, mid) + Count(c, rs, mid, hi)
    decreases hi
  {
    if mid < hi { CountSplit(c, rs, lo, mid, hi - 1); }
  }

  /** The first request from lo on that starts a window, hi when none does. */
  lemma FirstOpen(c: Config, rs: seq<Request>, lo: nat, hi: nat) returns (p: nat)
    requires lo <= hi <= |rs|
    ensures lo <= p <= hi && (p < hi ==> Opens(c, rs, p)) && forall i | lo <= i < p :: !Opens(c, rs, i)
  {
    p := lo;
    while p < hi && !Opens(c, rs, p)
      invariant lo <= p <= hi && forall i | lo <= i < p :: !Opens(c, rs, i)
    {
      p := p + 1;
    }
  }

  /** Once a window is started inside an interval no longer than a window, it outlasts the interval. */
  lemma {:induction false} SameOpener(c: Config, rs: seq<Request>, p: nat, i: nat)
    requires c.window > 0 && InOrder(rs) && p <= i < |rs| && Opens(c, rs, p)
    requires rs[i].at < rs[p].at + WindowMillis(c)
    ensures Opener(c, rs, i) == p
  {
    if p < i {
      if Opens(c, rs, i) { NextWindow(c, rs, p, i); }
      assert rs[i - 1].at <= rs[i].at;
      SameOpener(c, rs, p, i - 1);
    }
  }

  lemma {:induction false} SameBefore(c: Config, rs: seq<Request>, lo: nat, i: nat)
    requires lo <= i < |rs| && forall j | lo < j <= i :: !Opens(c, rs, j)
    ensures Opener(c, rs, i) == Opener(c, rs, lo)
  {
  }

  /**
   In any half-open interval [from, from + window) of any run, at most 2 * limit - 1 requests of a key are
   let through, and none if the limit is not positive.
   */
  lemma IntervalBound(c: Config, rs: seq<Request>, from: int, lo: nat, hi: nat)
    requires InOrder(rs) && lo <= hi <= |rs|
    requires forall i | lo <= i < hi :: from <= rs[i].at < from + 1000 * c.window
    ensures Count(c, rs, lo, hi) <= Max(0, 2 * c.limit - 1)
  {
    if lo == hi { return; }
    assert rs[lo].at < from + 1000 * c.window;
    var o := Opener(c, rs, lo);
    var p := FirstOpen(c, rs, lo + 1, hi);
    forall i | lo <= i < p ensures Opener(c, rs, i) == o { SameBefore(c, rs, lo, i); }
    forall i | p <= i < hi ensures Opener(c, rs, i) == p { SameOpener(c, rs, p, i); }
    CountSplit(c, rs, lo, p, hi);
    CountBound(c, rs, lo, p, o);
    CountBound(c, rs, p, hi, p);
    if p < hi && o == lo { NextWindow(c, rs, lo, p); }
  }

  // ---- The bound is reached ----

  /** One request at 0, the rest of the limit at the end of its window, and the limit again right after. */
  function Burst(c: Config): (rs: seq<Request>)
    requires c.limit >= 1
    ensures |rs| == 2 * c.limit
  {
    seq(2 * c.limit, i =>
      if i == 0 then Request(0, false)
      else if i < c.limit then Request(WindowMillis(c) - 1, false)
      else Request(WindowMillis(c) + 1, false))
  }

  lemma {:induction false} BurstOpeners(c: Config, i: nat)
    requires c.limit >= 1 && c.window >= 1 && i < 2 * c.limit
    ensures Opener(c, Burst(c), i) == if i < c.limit then 0 else c.limit
  {
    var rs := Burst(c);
    if i == 0 { return; }
    BurstOpeners(c, i - 1);
    KeyIs(c, rs, i - 1);
  }

  lemma {:induction false} AllAllowed(c: Config, rs: seq<Request>, lo: nat, hi: nat)
    requires lo <= hi <= |rs| && forall i | lo <= i < hi :: Allowed(c, rs, i)
    ensures Count(c, rs, lo, hi) == hi - lo
    decreases hi
  {
    if lo < hi { AllAllowed(c, rs, lo, hi - 1); }
  }

  /** For every positive limit some interval of one window sees 2 * limit - 1 requests let through. */
  lemma BoundIsReached(c: Config) returns (rs: seq<Request>, from: int, lo: nat)
    requires c.limit >= 1 && c.window >= 1
    ensures InOrder(rs) && lo <= |rs| && forall i | lo <= i < |rs| :: from <= rs[i].at < from + 1000 * c.window
    ensures Count(c, rs, lo, |rs|) == 2 * c.limit - 1
  {
    rs, from, lo := Burst(c), WindowMillis(c) - 1, 1;
    forall i | 0 <= i < |rs| ensures Allowed(c, rs, i) {
      BurstOpeners(c, i);
      AllowedIff(c, rs, i);
    }
    AllAllowed(c, rs, lo, |rs|);
  }

  // ---- The handler ----

  /** The counter's key; `suffix` is the window and the limit, which the configuration fixes. */
  function Key(server: string, uid: string, suffix: string): string {
    "mcp-server-limit:" + server + ":" + uid + suffix
  }

  /** Two callers share a counter exactly if their server and user, joined by a colon, are the same text. */
  lemma SharedCounter(server: string, uid: string, server2: string, uid2: string, suffix: string)
    ensures Key(server, uid, suffix) == Key(server2, uid2, suffix) <==> server + ":" + uid == server2 + ":" + uid2
  {
    var p := "mcp-server-limit:";
    var a, b := server + ":" + uid, server2 + ":" + uid2;
    assert Key(server, uid, suffix) == p + (a + suffix) && Key(server2, uid2, suffix) == p + (b + suffix);
    if p + (a + suffix) == p + (b + suffix) {
      assert a + suffix == (p + (a + suffix))[|p|..] == b + suffix;
      assert |a| == |b|;
      assert a == (a + suffix)[..|a|] == (b + suffix)[..|b|] == b;
    }
  }

  lemma KeyExample()
    ensures Key("map", "7", ":60:10") == "mcp-server-limit:map:7:60:10"
  {
  }

  datatype Answer = Passed | Forbidden | InternalError | Limited

  /** What becomes of the call of Redis: it may fail before the script runs, or its reply may be lost or malformed. */
  datatype Link = Works | Unreachable | ReplyLost

  datatype Call = Call(path: string, r: Request, link: Link)

  datatype Setup = Setup(config: Config, whitelist: seq<string>, suffix: string)

  /** The key on which a call counts; none if the handler returns before it runs the script. */
  function CountsOn(s: Setup, call: Call): Option<string> {
    var parts := SplitChar(call.path, '/');
    if |parts| < 3 || parts[2] in s.whitelist || call.link.Unreachable? then None
    else Some(Key(parts[1], parts[2], s.suffix))
  }

  function Get(keys: map<string, Counter>, key: string): Option<Counter> {
    if key in keys then Some(keys[key]) else None
  }

  /** The Redis database after a call. */
  function Step(s: Setup, keys: map<string, Counter>, call: Call): map<string, Counter> {
    var key := CountsOn(s, call);
    if key.None? then keys
    else
      var counter := Script(s.config, Get(keys, key.value), call.r);
      if counter.None? then keys else keys[key.value := counter.value]
  }

  /** The answer to a call that finds `keys` in the database. */
  function AnswerTo(s: Setup, keys: map<string, Counter>, call: Call): Answer {
    var parts := SplitChar(call.path, '/');
    if |parts| < 3 then Forbidden
    else if parts[2] in s.whitelist then Passed
    else if !call.link.Works? then InternalError
    else
      var counter := Script(s.config, Get(keys, Key(parts[1], parts[2], s.suffix)), call.r);
      if counter.None? then InternalError else if counter.value.remaining < 0 then Limited else Passed
  }

  /** The database after a run of calls by any users to any servers. */
  function Run(s: Setup, calls: seq<Call>): map<string, Counter> {
    if calls == [] then map[] else Step(s, Run(s, calls[..|calls| - 1]), calls[|calls| - 1])
  }

  /** The requests of a run that count on a key. */
  function On(s: Setup, calls: seq<Call>, key: string): seq<Request> {
    if calls == [] then []
    else
      var n := |calls| - 1;
      On(s, calls[..n], key) + if CountsOn(s, calls[n]) == Some(key) then [calls[n].r] else []
  }

  /** How many of them come before call i. */
  function Before(s: Setup, calls: seq<Call>, key: string, i: nat): nat
    requires i <= |calls|
  {
    |On(s, calls[..i], key)|
  }

  /** The calls from lo to hi that count on a key and are let through. */
  function PassedOn(s: Setup, calls: seq<Call>, key: string, lo: nat, hi: nat): nat
    requires lo <= hi <= |calls|
  {
    if lo == hi then 0
    else
      var i := hi - 1;
      PassedOn(s, calls, key, lo, i)
      + if CountsOn(s, calls[i]) == Some(key) && AnswerTo(s, Run(s, calls[..i]), calls[i]) == Passed then 1 else 0
  }

  class Handler {
    const setup: Setup
    const config := setup.config
    const whitelist := setup.whitelist
    const suffix := setup.suffix
    /** The Redis database. */
    var keys: map<string, Counter>

    constructor (setup: Setup)
      ensures this.setup == setup && keys == map[] == Run(setup, [])
    {
      this.setup, keys := setup, map[];
    }

    function Lookup(key: string): Option<Counter>
      reads this
    {
      Get(keys, key)
    }

    /** Runs LimitScript on a key; an error leaves the key as it is. */
    method Eval(key: string, r: Request) returns (remaining: Option<int>)
      requires Lookup(key).None? || config.window > 0
      modifies this
      ensures Lookup(key) == Script(config, old(Lookup(key)), r)
      ensures forall k | k != key :: Lookup(k) == old(Lookup(k))
      ensures keys == if Lookup(key).None? then old(keys) else old(keys)[key := Lookup(key).value]
      ensures config.window <= 0 ==> keys == old(keys)
      ensures remaining == if Lookup(key).None? then None else Some(Lookup(key).value.remaining)
    {
      if Gone(Lookup(key), r) {
        if config.window <= 0 {
          return None;
        }
        keys := keys[key := Counter(config.limit - 1, r.at + WindowMillis(config))];
        return Some(config.limit - 1);
      }
      keys := keys[key := keys[key].(remaining := keys[key].remaining - 1)];
      return Some(keys[key].remaining);
    }

    /**
     HandleRatelimit. Requests without a user are turned away and whitelisted users pass, without counting;
     every other request counts on its own key only, and passes exactly if that key is not overdrawn. If
     Redis fails the request is turned away; it has counted if the script did run.
     */
    method HandleRatelimit(path: string, r: Request, link: Link) returns (answer: Answer)
      requires config.window > 0 || keys == map[]
      modifies this
      ensures config.window > 0 || keys == map[]
      ensures keys == Step(setup, old(keys), Call(path, r, link))
      ensures answer == AnswerTo(setup, old(keys), Call(path, r, link))
      ensures var parts := SplitChar(path, '/');
              if |parts| < 3 then answer == Forbidden && keys == old(keys)
              else if parts[2] in whitelist then answer == Passed && keys == old(keys)
              else if link.Unreachable? then answer == InternalError && keys == old(keys)
              else
                var key := Key(parts[1], parts[2], suffix);
                && Lookup(key) == Script(config, old(Lookup(key)), r)
                && (forall k | k != key :: Lookup(k) == old(Lookup(k)))
                && answer == if Lookup(key).None? || link.ReplyLost? then InternalError
                             else if Lookup(key).value.remaining < 0 then Limited else Passed
    {
      var parts := SplitChar(path, '/');
      if |parts| < 3 {
        return Forbidden;
      }
      var serverName, uid := parts[1], parts[2];
      for i := 0 to |whitelist|
        invariant uid !in whitelist[..i]
      {
        if whitelist[i] == uid {
          return Passed;
        }
        assert whitelist[..i + 1] == whitelist[..i] + [whitelist[i]];
      }
      assert whitelist[..|whitelist|] == whitelist;
      if link.Unreachable? {
        return InternalError;
      }
      var remaining := Eval(Key(serverName, uid, suffix), r);
      if remaining.None? || link.ReplyLost? {
        return InternalError;
      }
      if remaining.value < 0 {
        return Limited;
      }
      return Passed;
    }
  }

  // ---- Runs of the handler ----

  lemma StepOnKey(s: Setup, keys: map<string, Counter>, call: Call, key: string)
    ensures Get(Step(s, keys, call), key)
            == if CountsOn(s, call) == Some(key) && Script(s.config, Get(keys, key), call.r).Some?
               then Script(s.config, Get(keys, key), call.r) else Get(keys, key)
  {
    hide CountsOn, Script;
  }

  lemma KeyAfterStep(c: Config, rs: seq<Request>, r: Request)
    ensures KeyAfter(c, rs + [r]) == Script(c, KeyAfter(c, rs), r)
  {
    assert (rs + [r])[..|rs|] == rs;
  }

  lemma NothingYet(s: Setup, key: string)
    ensures Get(map[], key) == KeyAfter(s.config, []) && On(s, [], key) == []
  {
  }

  /** Every key counts the requests on it, and those only. */
  lemma {:induction false} KeysCountTheirRequests(s: Setup, calls: seq<Call>, key: string)
    ensures Get(Run(s, calls), key) == KeyAfter(s.config, On(s, calls, key))
  {
    NothingYet(s, key);
    if calls != [] {
      hide CountsOn, Script, Get, Step, KeyAfter;
      var last := calls[|calls| - 1];
      var before := calls[..|calls| - 1];
      var rs := On(s, before, key);
      KeysCountTheirRequests(s, before, key);
      StepOnKey(s, Run(s, before), last, key);
      KeyAfterStep(s.config, rs, last.r);
      if s.config.window > 0 {
        ScriptSets(s.config, KeyAfter(s.config, rs), last.r);
      } else {
        NoWindow(s.config, rs);
        NoWindow(s.config, rs + [last.r]);
      }
      assert On(s, calls, key) == if CountsOn(s, last) == Some(key) then rs + [last.r] else rs;
    }
  }

  lemma ScriptSets(c: Config, key: Option<Counter>, r: Request)
    requires c.window > 0
    ensures Script(c, key, r).Some?
  {
  }

  lemma {:induction false} OnPrefix(s: Setup, calls: seq<Call>, key: string, i: nat)
    requires i <= |calls|
    ensures Before(s, calls, key, i) <= |On(s, calls, key)|
    ensures On(s, calls[..i], key) == On(s, calls, key)[..Before(s, calls, key, i)]
    decreases |calls|
  {
    hide CountsOn;
    if i == |calls| {
      assert calls[..i] == calls;
    } else {
      OnPrefix(s, calls[..|calls| - 1], key, i);
      assert calls[..|calls| - 1][..i] == calls[..i];
    }
  }

  lemma BeforeStep(s: Setup, calls: seq<Call>, key: string, i: nat)
    requires i < |calls|
    ensures On(s, calls[..i + 1], key)
            == On(s, calls[..i], key) + if CountsOn(s, calls[i]) == Some(key) then [calls[i].r] else []
  {
    assert calls[..i + 1][..i] == calls[..i];
  }

  /** A call that counts gets the answer that its request gets among those on its key. */
  lemma AnswerCounts(s: Setup, calls: seq<Call>, key: string, i: nat)
    requires i < |calls| && CountsOn(s, calls[i]) == Some(key)
    ensures var n := Before(s, calls, key, i);
            && n < |On(s, calls, key)| && On(s, calls, key)[n] == calls[i].r
            && AnswerTo(s, Run(s, calls[..i]), calls[i]) == (if calls[i].link.ReplyLost? then InternalError
                                                             else if Allowed(s.config, On(s, calls, key), n) then Passed
                                                             else if s.config.window > 0 then Limited
                                                             else InternalError)
  {
    hide Run, On, Script;
    var n := Before(s, calls, key, i);
    KeysCountTheirRequests(s, calls[..i], key);
    BeforeStep(s, calls, key, i);
    OnPrefix(s, calls, key, i + 1);
    var rs := On(s, calls, key);
    OnPrefix(s, calls, key, i);
    assert rs[..n + 1][..n] == rs[..n];
    if s.config.window > 0 {
      ScriptSets(s.config, KeyAfter(s.config, rs[..n]), rs[n]);
    } else {
      NoWindow(s.config, rs[..n + 1]);
    }
  }

  /** The calls let through on a key are the requests let through on it, but for those whose reply is lost. */
  lemma {:induction false} PassedCount(s: Setup, calls: seq<Call>, key: string, lo: nat, hi: nat)
    requires lo <= hi <= |calls|
    ensures Before(s, calls, key, lo) <= Before(s, calls, key, hi) <= |On(s, calls, key)|
    ensures PassedOn(s, calls, key, lo, hi)
            <= Count(s.config, On(s, calls, key), Before(s, calls, key, lo), Before(s, calls, key, hi))
    ensures (forall i | lo <= i < hi :: !calls[i].link.ReplyLost?) ==>
              PassedOn(s, calls, key, lo, hi)
              == Count(s.config, On(s, calls, key), Before(s, calls, key, lo), Before(s, calls, key, hi))
    decreases hi
  {
    hide On, Allowed, AnswerTo, CountsOn;
    OnPrefix(s, calls, key, hi);
    if lo < hi {
      PassedCount(s, calls, key, lo, hi - 1);
      BeforeStep(s, calls, key, hi - 1);
      if CountsOn(s, calls[hi - 1]) == Some(key) { AnswerCounts(s, calls, key, hi - 1); }
    }
  }

  /** A condition on the calls from lo to hi that count on a key, for the requests on it. */
  lemma {:induction false} RequestsBetween(
    s: Setup, calls: seq<Call>, key: string, lo: nat, hi: nat, from: int, to: int)
    requires lo <= hi <= |calls|
    requires forall i | lo <= i < hi && CountsOn(s, calls[i]) == Some(key) :: from <= calls[i].r.at < to
    ensures Before(s, calls, key, hi) <= |On(s, calls, key)|
    ensures forall j | Before(s, calls, key, lo) <= j < Before(s, calls, key, hi) ::
              from <= On(s, calls, key)[j].at < to
    decreases hi
  {
    hide On, CountsOn;
    OnPrefix(s, calls, key, hi);
    if lo < hi {
      RequestsBetween(s, calls, key, lo, hi - 1, from, to);
      BeforeStep(s, calls, key, hi - 1);
      OnPrefix(s, calls, key, hi - 1);
    }
  }

  /**
   In every run of the handler, whoever calls it in between: of the calls on one key within one window's
   length at most 2 * limit - 1 are let through.
   */
  lemma HandlerBound(s: Setup, calls: seq<Call>, key: string, from: int, lo: nat, hi: nat)
    requires lo <= hi <= |calls| && InOrder(On(s, calls, key))
    requires forall i | lo <= i < hi && CountsOn(s, calls[i]) == Some(key) ::
               from <= calls[i].r.at < from + 1000 * s.config.window
    ensures PassedOn(s, calls, key, lo, hi) <= Max(0, 2 * s.config.limit - 1)
  {
    hide On, CountsOn;
    PassedCount(s, calls, key, lo, hi);
    RequestsBetween(s, calls, key, lo, hi, from, from + 1000 * s.config.window);
    IntervalBound(s.config, On(s, calls, key), from, Before(s, calls, key, lo), Before(s, calls, key, hi));
  }
}
