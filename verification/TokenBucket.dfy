/**
 The lock-free token bucket of the key-rate-limit plugin.

 Any number of VMs share two cells of proxy shared data, the token count and the time of the
 last refill. A cell carries a version; a write is a compare-and-swap on that version. One host
 call of one VM is one step of the machine below, so a schedule (a sequence of events) is an
 arbitrary interleaving of host calls with clock ticks and host faults.
 */
module TokenBucket {

  const TWO_64 := 0x1_0000_0000_0000_0000
  type uint64 = x: int | 0 <= x < 0x1_0000_0000_0000_0000

  const MAX_GET_TOKEN_RETRY := 20

  datatype LimitItem = LimitItem(tokensPerRefill: uint64, refillIntervalNanosec: uint64, maxTokens: uint64)

  datatype Cell = Cell(value: uint64, version: nat)

  /** What the host answers to one call of a VM. */
  datatype Reply = Loaded(cell: Cell) | Now(time: uint64) | Stored | CasMismatch | Fault

  /** Where a VM stands: the host call it makes next, and what it remembers.
      `born` is a history variable: the version of the token cell when the call began. */
  datatype Pc =
    | Idle
    | GetLoad(attempt: nat, born: nat)
    | GetStore(attempt: nat, born: nat, seen: Cell)
    | StampLoad
    | StampClock(seen: Cell)
    | StampStore(seen: Cell, now: uint64)
    | FillLoad
    | FillStore(seen: Cell)

  /** The visible result of a step. */
  datatype Outcome =
    | Silent
    | Paid                    // getToken returned true after taking a token
    | FailOpen                // getToken returned true without taking one
    | Denied                  // getToken returned false
    | Stamped(time: uint64)   // the refill time was written
    | BlindStamp              // the write of the refill time failed, the refill goes on regardless
    | Refilled(delta: int)    // the token count was raised, `delta` after capping and wrap-around

  datatype Op = GetToken | RefillToken
  datatype Event = Tick(now: uint64) | Call(vm: nat, op: Op) | Step(vm: nat, fault: bool)

  datatype State = State(tokens: Cell, last: Cell, clock: uint64, vms: seq<Pc>)

  /** `token_left += tokens_per_refill`, in 64 bits, then the cap. */
  function Refill(cfg: LimitItem, tokens: uint64): uint64 {
    var sum := (tokens + cfg.tokensPerRefill) % TWO_64;
    if sum > cfg.maxTokens then cfg.maxTokens else sum
  }

  /** `now - last_update`, in 64 bits. */
  function Elapsed(now: uint64, last: uint64): uint64 {
    (now - last) % TWO_64
  }

  /** The loop header of getToken: the next attempt, or the fail-open return after the last one. */
  function Retry(attempt: nat, born: nat): (Pc, Outcome) {
    if attempt + 1 < MAX_GET_TOKEN_RETRY then (GetLoad(attempt + 1, born), Silent) else (Idle, FailOpen)
  }

  /** The code of one VM: what it does with the host's reply to its pending call. */
  function Local(cfg: LimitItem, pc: Pc, reply: Reply): (Pc, Outcome) {
    match (pc, reply)
    case (GetLoad(a, b), Loaded(c)) => if c.value == 0 then (Idle, Denied) else (GetStore(a, b, c), Silent)
    case (GetLoad(a, b), _) => Retry(a, b)
    case (GetStore(a, b, c), Stored) => (Idle, Paid)
    case (GetStore(a, b, c), CasMismatch) => Retry(a, b)
    case (GetStore(a, b, c), _) => (Idle, FailOpen)
    case (StampLoad, Loaded(c)) => (StampClock(c), Silent)
    case (StampClock(c), Now(t)) =>
      if Elapsed(t, c.value) < cfg.refillIntervalNanosec then (Idle, Silent) else (StampStore(c, t), Silent)
    case (StampStore(c, t), Stored) => (FillLoad, Stamped(t))
    case (StampStore(c, t), CasMismatch) => (Idle, Silent)
    case (StampStore(c, t), _) => (FillLoad, BlindStamp)
    case (FillLoad, Loaded(c)) => (FillStore(c), Silent)
    case (FillStore(c), Stored) => (Idle, Refilled(Refill(cfg, c.value) - c.value))
    case (FillStore(c), CasMismatch) => (FillLoad, Silent)
    case _ => (Idle, Silent)
  }

  /** A compare-and-swap write. */
  function Cas(cell: Cell, seen: Cell, value: uint64, fault: bool): (Cell, Reply) {
    if fault then (cell, Fault)
    else if cell.version != seen.version then (cell, CasMismatch)
    else (Cell(value, cell.version + 1), Stored)
  }

  function Load(cell: Cell, fault: bool): Reply {
    if fault then Fault else Loaded(cell)
  }

  /** The host's side of the pending call of VM `pc`: the new cells and the reply. */
  function Host(cfg: LimitItem, s: State, pc: Pc, fault: bool): (State, Reply) {
    match pc
    case Idle => (s, Fault)
    case GetLoad(_, _) => (s, Load(s.tokens, fault))
    case GetStore(_, _, c) =>
      var (cell, reply) := Cas(s.tokens, c, if c.value > 0 then c.value - 1 else 0, fault);
      (s.(tokens := cell), reply)
    case StampLoad => (s, Load(s.last, fault))
    case StampClock(_) => (s, Now(s.clock))
    case StampStore(c, t) =>
      var (cell, reply) := Cas(s.last, c, t, fault);
      (s.(last := cell), reply)
    case FillLoad => (s, Load(s.tokens, fault))
    case FillStore(c) =>
      var (cell, reply) := Cas(s.tokens, c, Refill(cfg, c.value), fault);
      (s.(tokens := cell), reply)
  }

  /** One step of the interleaving machine. An event that is not enabled changes nothing. */
  function Next(cfg: LimitItem, s: State, e: Event): (State, Outcome) {
    match e
    case Tick(t) => (if s.clock <= t then s.(clock := t) else s, Silent)
    case Call(i, op) =>
      if i < |s.vms| && s.vms[i].Idle? then
        (s.(vms := s.vms[i := if op.GetToken? then GetLoad(0, s.tokens.version) else StampLoad]), Silent)
      else (s, Silent)
    case Step(i, fault) =>
      if i < |s.vms| && !s.vms[i].Idle? then
        var (s', reply) := Host(cfg, s, s.vms[i], fault);
        var (pc, out) := Local(cfg, s.vms[i], reply);
        (s'.(vms := s.vms[i := pc]), out)
      else (s, Silent)
  }

  /** The state after a schedule, and the outcomes along it. */
  function Exec(cfg: LimitItem, s0: State, es: seq<Event>): State {
    if es == [] then s0 else Next(cfg, Exec(cfg, s0, es[..|es| - 1]), es[|es| - 1]).0
  }

  function Outcomes(cfg: LimitItem, s0: State, es: seq<Event>): (os: seq<Outcome>)
    ensures |os| == |es|
  {
    if es == [] then []
    else Outcomes(cfg, s0, es[..|es| - 1]) + [Next(cfg, Exec(cfg, s0, es[..|es| - 1]), es[|es| - 1]).1]
  }

  /** What initializeTokenBucket leaves behind: a full bucket, refill time 0, no VM in a call. */
  predicate Initial(cfg: LimitItem, s: State) {
    && s.tokens.value == cfg.maxTokens
    && s.last.value == 0
    && forall i | 0 <= i < |s.vms| :: s.vms[i].Idle?
  }

  // ---------------------------------------------------------------------------------------
  // Bookkeeping over outcomes

  function CountPaid(os: seq<Outcome>): nat {
    if os == [] then 0 else CountPaid(os[..|os| - 1]) + if os[|os| - 1].Paid? then 1 else 0
  }

  function CountBlind(os: seq<Outcome>): nat {
    if os == [] then 0 else CountBlind(os[..|os| - 1]) + if os[|os| - 1].BlindStamp? then 1 else 0
  }

  function CountFills(os: seq<Outcome>): nat {
    if os == [] then 0 else CountFills(os[..|os| - 1]) + if os[|os| - 1].Refilled? then 1 else 0
  }

  function TotalRefilled(os: seq<Outcome>): int {
    if os == [] then 0
    else TotalRefilled(os[..|os| - 1]) + if os[|os| - 1].Refilled? then os[|os| - 1].delta else 0
  }

  function Stamps(os: seq<Outcome>): seq<int> {
    if os == [] then []
    else Stamps(os[..|os| - 1]) + if os[|os| - 1].Stamped? then [os[|os| - 1].time] else []
  }

  /** A refill that is still owed to the bucket. */
  function Owes(pc: Pc): nat { if pc.FillLoad? || pc.FillStore? then 1 else 0 }

  function Owed(vms: seq<Pc>): nat {
    if vms == [] then 0 else Owed(vms[..|vms| - 1]) + Owes(vms[|vms| - 1])
  }

  lemma {:induction false} OwedAfterUpdate(vms: seq<Pc>, i: nat, pc: Pc)
    requires i < |vms|
    ensures Owed(vms[i := pc]) == Owed(vms) - Owes(vms[i]) + Owes(pc)
  {
    var n := |vms| - 1;
    if i < n {
      OwedAfterUpdate(vms[..n], i, pc);
      assert vms[i := pc][..n] == vms[..n][i := pc];
    } else {
      assert vms[i := pc][..n] == vms[..n];
    }
  }

  lemma {:induction false} NothingOwedAtStart(vms: seq<Pc>)
    requires forall i | 0 <= i < |vms| :: vms[i].Idle?
    ensures Owed(vms) == 0
  {
    if vms != [] { NothingOwedAtStart(vms[..|vms| - 1]); }
  }

  // ---------------------------------------------------------------------------------------
  // The invariant of the machine

  /** A remembered cell whose version is current is the current cell. */
  predicate Snapshot(seen: Cell, cell: Cell) {
    seen.version <= cell.version && (seen.version == cell.version ==> seen == cell)
  }

  predicate PcOk(cfg: LimitItem, s: State, pc: Pc) {
    match pc
    case GetLoad(a, b) => a < MAX_GET_TOKEN_RETRY && b <= s.tokens.version
    case GetStore(a, b, c) =>
      a < MAX_GET_TOKEN_RETRY && b <= c.version && c.value > 0 && c.value <= cfg.maxTokens && Snapshot(c, s.tokens)
    case StampClock(c) => Snapshot(c, s.last) && c.value <= s.clock
    case StampStore(c, t) => Snapshot(c, s.last) && c.value + cfg.refillIntervalNanosec <= t <= s.clock
    case FillStore(c) => Snapshot(c, s.tokens)
    case _ => true
  }

  predicate Inv(cfg: LimitItem, s: State) {
    && s.tokens.value <= cfg.maxTokens
    && s.last.value <= s.clock
    && forall i | 0 <= i < |s.vms| :: PcOk(cfg, s, s.vms[i])
  }

  /** A host call leaves every remembered snapshot sound: a write makes the others' versions stale. */
  lemma HostKeepsInv(cfg: LimitItem, s: State, i: nat, fault: bool)
    requires Inv(cfg, s) && i < |s.vms|
    ensures Inv(cfg, Host(cfg, s, s.vms[i], fault).0)
  {
  }

  /** The VM that moves stands at a sound control point afterwards. */
  lemma MoverKeepsInv(cfg: LimitItem, s: State, i: nat, fault: bool)
    requires Inv(cfg, s) && i < |s.vms| && !s.vms[i].Idle?
    ensures var (h, reply) := Host(cfg, s, s.vms[i], fault); PcOk(cfg, h, Local(cfg, s.vms[i], reply).0)
  {
    assert PcOk(cfg, s, s.vms[i]);
  }

  lemma NextKeepsInv(cfg: LimitItem, s: State, e: Event)
    requires Inv(cfg, s)
    ensures Inv(cfg, Next(cfg, s, e).0)
  {
    match e
    case Tick(t) =>
      if s.clock <= t { TickKeepsPcs(cfg, s, t); }
    case Call(i, op) =>
      if i < |s.vms| && s.vms[i].Idle? { UpdateKeepsInv(cfg, s, i, Next(cfg, s, e).0.vms[i]); }
    case Step(i, fault) =>
      if i < |s.vms| && !s.vms[i].Idle? {
        HostKeepsInv(cfg, s, i, fault);
        MoverKeepsInv(cfg, s, i, fault);
        UpdateKeepsInv(cfg, Host(cfg, s, s.vms[i], fault).0, i, Next(cfg, s, e).0.vms[i]);
      }
  }

  lemma TickKeepsPcs(cfg: LimitItem, s: State, t: uint64)
    requires Inv(cfg, s) && s.clock <= t
    ensures Inv(cfg, s.(clock := t))
  {
  }

  lemma UpdateKeepsInv(cfg: LimitItem, s: State, i: nat, pc: Pc)
    requires Inv(cfg, s) && i < |s.vms| && PcOk(cfg, s, pc)
    ensures Inv(cfg, s.(vms := s.vms[i := pc]))
  {
  }

  /** Safety over whole runs: in every reachable state the bucket holds at most maxTokens, no VM
      remembers a refill time from the future, and every remembered cell is a sound snapshot. */
  lemma {:induction false} ReachableInv(cfg: LimitItem, s0: State, es: seq<Event>)
    requires Initial(cfg, s0)
    ensures Inv(cfg, Exec(cfg, s0, es))
  {
    if es != [] {
      ReachableInv(cfg, s0, es[..|es| - 1]);
      NextKeepsInv(cfg, Exec(cfg, s0, es[..|es| - 1]), es[|es| - 1]);
    }
  }

  // ---------------------------------------------------------------------------------------
  // Refinement of an atomic bucket

  datatype Bucket = Bucket(tokens: uint64, last: uint64)

  function Abs(s: State): Bucket { Bucket(s.tokens.value, s.last.value) }

  /** A refill fills up to the cap, and starts over from 0 when the 64-bit sum wraps around. */
  predicate FilledUp(cfg: LimitItem, tokens: uint64, after: uint64) {
    var sum := tokens + cfg.tokensPerRefill;
    && (sum < TWO_64 ==> after == sum || (after == cfg.maxTokens && sum > cfg.maxTokens))
    && (sum >= TWO_64 ==> after == sum - TWO_64 || (after == cfg.maxTokens && sum - TWO_64 > cfg.maxTokens))
    && after <= cfg.maxTokens
  }

  /** The bucket the plugin's users have in mind: each outcome is one indivisible action. */
  predicate AtomicStep(cfg: LimitItem, b: Bucket, o: Outcome, b': Bucket) {
    match o
    case Paid => b.tokens > 0 && b' == Bucket(b.tokens - 1, b.last)
    case Denied => b.tokens == 0 && b' == b
    case Stamped(t) => b.last + cfg.refillIntervalNanosec <= t && b' == Bucket(b.tokens, t)
    case Refilled(d) =>
      FilledUp(cfg, b.tokens, b'.tokens) && b' == Bucket(b'.tokens, b.last) && d == b'.tokens - b.tokens
    case _ => b' == b
  }

  /** `bs` is a run of the atomic bucket that produces exactly the outcomes `os`. */
  predicate AtomicRun(cfg: LimitItem, bs: seq<Bucket>, os: seq<Outcome>) {
    |bs| == |os| + 1 && forall i | 0 <= i < |os| :: AtomicStep(cfg, bs[i], os[i], bs[i + 1])
  }

  /** The atomic states a schedule passes through. */
  function Shadow(cfg: LimitItem, s0: State, es: seq<Event>): (bs: seq<Bucket>)
    ensures |bs| == |es| + 1 && bs[|es|] == Abs(Exec(cfg, s0, es))
  {
    if es == [] then [Abs(s0)] else Shadow(cfg, s0, es[..|es| - 1]) + [Abs(Exec(cfg, s0, es))]
  }

  lemma RefillFills(cfg: LimitItem, tokens: uint64)
    ensures FilledUp(cfg, tokens, Refill(cfg, tokens))
  {
  }

  lemma NextRefines(cfg: LimitItem, s: State, e: Event)
    requires Inv(cfg, s)
    ensures var (s', o) := Next(cfg, s, e); AtomicStep(cfg, Abs(s), o, Abs(s'))
  {
    hide Refill, FilledUp;
    if e.Step? && e.vm < |s.vms| {
      assert PcOk(cfg, s, s.vms[e.vm]);
      RefillFills(cfg, s.tokens.value);
    }
  }

  /** Every interleaving is a run of the atomic bucket with the same outcomes: no token is taken
      twice and no update is lost between a read and a successful compare-and-swap. */
  lemma {:induction false} RefinesAtomicBucket(cfg: LimitItem, s0: State, es: seq<Event>)
    requires Initial(cfg, s0)
    ensures AtomicRun(cfg, Shadow(cfg, s0, es), Outcomes(cfg, s0, es))
    ensures Shadow(cfg, s0, es)[0] == Bucket(cfg.maxTokens, 0)
  {
    if es != [] {
      var n := |es| - 1;
      RefinesAtomicBucket(cfg, s0, es[..n]);
      ReachableInv(cfg, s0, es[..n]);
      NextRefines(cfg, Exec(cfg, s0, es[..n]), es[n]);
    }
  }

  lemma {:induction false} ShadowAt(cfg: LimitItem, s0: State, es: seq<Event>, i: nat)
    requires i <= |es|
    ensures Shadow(cfg, s0, es)[i] == Abs(Exec(cfg, s0, es[..i]))
    decreases |es|
  {
    if i == |es| {
      assert es[..i] == es;
    } else {
      ShadowAt(cfg, s0, es[..|es| - 1], i);
      assert es[..|es| - 1][..i] == es[..i];
    }
  }

  /** What an outcome at any point of any schedule tells about the cells before and after it. */
  lemma OutcomeMeans(cfg: LimitItem, s0: State, es: seq<Event>, i: nat)
    requires Initial(cfg, s0) && i < |es|
    ensures var a, b := Exec(cfg, s0, es[..i]), Exec(cfg, s0, es[..i + 1]);
            var before, after := a.tokens.value, b.tokens.value;
            match Outcomes(cfg, s0, es)[i]
            case Paid => before > 0 && after == before - 1 && b.last.value == a.last.value
            case Denied => before == after == 0 && b.last.value == a.last.value
            case Stamped(t) => b.last.value == t && after == before
            case Refilled(d) =>
              && d == after - before && b.last.value == a.last.value
              && (before + cfg.tokensPerRefill < TWO_64 ==>
                    d == if before + cfg.tokensPerRefill > cfg.maxTokens then cfg.maxTokens - before
                         else cfg.tokensPerRefill)
            case _ => before == after && b.last.value == a.last.value
  {
    RefinesAtomicBucket(cfg, s0, es);
    ShadowAt(cfg, s0, es, i);
    ShadowAt(cfg, s0, es, i + 1);
    hide Exec, Outcomes, Shadow;
  }

  // ---------------------------------------------------------------------------------------
  // One VM on its own

  lemma Updated(vms: seq<Pc>, i: nat, pc: Pc)
    requires i < |vms| && vms[i].Idle?
    ensures vms[i := pc][i := Idle] == vms
  {
  }

  /** The state and the last outcome after n steps of one VM, with no other VM and no fault between them. */
  function Alone(cfg: LimitItem, s: State, i: nat, n: nat): (State, Outcome) {
    if n == 0 then (s, Silent) else Next(cfg, Alone(cfg, s, i, n - 1).0, Step(i, false))
  }

  function Begin(cfg: LimitItem, s: State, i: nat, op: Op): State { Next(cfg, s, Call(i, op)).0 }

  /** Undisturbed, getToken takes a token in two host calls, or finds the bucket empty in one. */
  lemma QuietGet(cfg: LimitItem, s: State, i: nat)
    requires i < |s.vms| && s.vms[i].Idle?
    ensures var t := Begin(cfg, s, i, GetToken);
            if s.tokens.value == 0 then Alone(cfg, t, i, 1) == (s, Denied)
            else Alone(cfg, t, i, 2) == (s.(tokens := Cell(s.tokens.value - 1, s.tokens.version + 1)), Paid)
  {
    var t := Begin(cfg, s, i, GetToken);
    Updated(s.vms, i, t.vms[i]);
    Alone1(cfg, t, i);
    var t1 := Next(cfg, t, Step(i, false)).0;
    if s.tokens.value > 0 {
      assert t1 == s.(vms := s.vms[i := t1.vms[i]]);
      Updated(s.vms, i, t1.vms[i]);
    }
  }

  lemma Alone1(cfg: LimitItem, s: State, i: nat)
    ensures Alone(cfg, s, i, 1) == Next(cfg, s, Step(i, false))
    ensures Alone(cfg, s, i, 2) == Next(cfg, Next(cfg, s, Step(i, false)).0, Step(i, false))
  {
    hide Next;
    assert Alone(cfg, s, i, 0) == (s, Silent);
  }

  /** Undisturbed, refillToken refills once an interval has passed since the last refill, and only then. */
  lemma QuietRefill(cfg: LimitItem, s: State, i: nat)
    requires i < |s.vms| && s.vms[i].Idle? && s.last.value <= s.clock
    ensures var t := Begin(cfg, s, i, RefillToken);
            if s.clock - s.last.value < cfg.refillIntervalNanosec then Alone(cfg, t, i, 2) == (s, Silent)
            else
              var (u, o) := Alone(cfg, t, i, 5);
              && o == Refilled(u.tokens.value - s.tokens.value) && FilledUp(cfg, s.tokens.value, u.tokens.value)
              && u == s.(tokens := Cell(u.tokens.value, s.tokens.version + 1),
                         last := Cell(s.clock, s.last.version + 1))
  {
    var t := Begin(cfg, s, i, RefillToken);
    Alone1(cfg, t, i);
    var t1 := Next(cfg, t, Step(i, false)).0;
    var t2 := Next(cfg, t1, Step(i, false)).0;
    assert t1 == t.(vms := s.vms[i := StampClock(s.last)]);
    if s.clock - s.last.value < cfg.refillIntervalNanosec {
      Updated(s.vms, i, t1.vms[i]);
    } else {
      assert t2 == t.(vms := s.vms[i := StampStore(s.last, s.clock)]);
      var last := Cell(s.clock, s.last.version + 1);
      var t3 := Next(cfg, t2, Step(i, false)).0;
      assert t3 == s.(vms := s.vms[i := FillLoad], last := last);
      Alone1(cfg, t2, i);
      var t4 := Next(cfg, t3, Step(i, false)).0;
      assert t4 == s.(vms := s.vms[i := FillStore(s.tokens)], last := last);
      Alone1(cfg, t3, i);
      Updated(s.vms, i, t4.vms[i]);
      AloneFrom(cfg, t, i, 5);
    }
  }

  lemma AloneFrom(cfg: LimitItem, s: State, i: nat, n: nat)
    requires n == 5
    ensures var step := Step(i, false);
            Alone(cfg, s, i, n)
            == Next(cfg, Next(cfg, Next(cfg, Next(cfg, Next(cfg, s, step).0, step).0, step).0, step).0, step)
  {
    hide Next;
    Alone1(cfg, s, i);
    assert Alone(cfg, s, i, 3) == Next(cfg, Alone(cfg, s, i, 2).0, Step(i, false));
    assert Alone(cfg, s, i, 4) == Next(cfg, Alone(cfg, s, i, 3).0, Step(i, false));
  }

  /** After a refill that adds something, the next undisturbed request is paid for. */
  lemma PaidAfterRefill(cfg: LimitItem, s0: State, es: seq<Event>, i: nat)
    requires Initial(cfg, s0) && es != [] && Outcomes(cfg, s0, es)[|es| - 1].Refilled?
    requires 0 < cfg.tokensPerRefill && 0 < cfg.maxTokens && cfg.maxTokens + cfg.tokensPerRefill < TWO_64
    requires var s := Exec(cfg, s0, es); i < |s.vms| && s.vms[i].Idle?
    ensures var s := Exec(cfg, s0, es);
            s.tokens.value > 0 && Alone(cfg, Begin(cfg, s, i, GetToken), i, 2).1 == Paid
  {
    hide Exec, Outcomes, Next, Alone;
    OutcomeMeans(cfg, s0, es, |es| - 1);
    assert es[..|es| - 1 + 1] == es;
    ReachableInv(cfg, s0, es[..|es| - 1]);
    QuietGet(cfg, Exec(cfg, s0, es), i);
  }

  /** A fault in a host call changes no cell; getToken tries again or gives in, a refill is dropped, but is
      carried out if only the write of the refill time failed. */
  lemma FaultMeans(cfg: LimitItem, s: State, i: nat)
    requires i < |s.vms| && !s.vms[i].Idle?
    ensures var (t, o) := Next(cfg, s, Step(i, true)); var pc, pc' := s.vms[i], t.vms[i];
            && t == s.(vms := s.vms[i := pc'])
            && (pc.StampLoad? || pc.FillLoad? || pc.FillStore? ==> pc'.Idle? && o.Silent?)
            && (pc.StampStore? ==> pc'.FillLoad? && o.BlindStamp?)
            && (pc.GetStore? ==> pc'.Idle? && o.FailOpen?)
            && (pc.GetLoad? && pc.attempt < 19 ==> pc' == GetLoad(pc.attempt + 1, pc.born) && o.Silent?)
            && (pc.GetLoad? && pc.attempt >= 19 ==> pc'.Idle? && o.FailOpen?)
  {
  }

  lemma TickMeans(cfg: LimitItem, s: State, t: uint64)
    ensures var (s', o) := Next(cfg, s, Tick(t));
            o == Silent && s' == s.(clock := s'.clock) && s'.clock >= t && s'.clock in {t, s.clock}
  {
  }

  // ---------------------------------------------------------------------------------------
  // Accounting of whole runs

  lemma {:induction false} CountsAre(os: seq<Outcome>)
    ensures CountPaid(os) == multiset(os)[Paid] && CountBlind(os) == multiset(os)[BlindStamp]
  {
    if os != [] {
      CountsAre(os[..|os| - 1]);
      assert os == os[..|os| - 1] + [os[|os| - 1]];
    }
  }

  predicate FaultFree(es: seq<Event>) {
    forall i | 0 <= i < |es| :: !(es[i].Step? && es[i].fault)
  }

  predicate Spaced(stamps: seq<int>, interval: int) {
    |stamps| < 2
    || (stamps[|stamps| - 2] + interval <= stamps[|stamps| - 1] && Spaced(stamps[..|stamps| - 1], interval))
  }

  /** tokens = initial + effective refills - paid grants, in every reachable state. */
  lemma {:induction false} TokensConserved(cfg: LimitItem, s0: State, es: seq<Event>)
    requires Initial(cfg, s0)
    ensures var os := Outcomes(cfg, s0, es);
            Exec(cfg, s0, es).tokens.value == cfg.maxTokens + TotalRefilled(os) - CountPaid(os)
  {
    if es != [] {
      var n := |es| - 1;
      TokensConserved(cfg, s0, es[..n]);
      ReachableInv(cfg, s0, es[..n]);
      NextRefines(cfg, Exec(cfg, s0, es[..n]), es[n]);
    }
  }

  predicate StampsOk(cfg: LimitItem, b: Bucket, os: seq<Outcome>) {
    && Spaced(Stamps(os), cfg.refillIntervalNanosec)
    && b.last == if Stamps(os) == [] then 0 else Stamps(os)[|Stamps(os)| - 1]
  }

  lemma StampsOkStep(cfg: LimitItem, b: Bucket, os: seq<Outcome>, o: Outcome, b': Bucket)
    requires StampsOk(cfg, b, os) && AtomicStep(cfg, b, o, b')
    ensures StampsOk(cfg, b', os + [o])
  {
    assert (os + [o])[..|os|] == os;
    var before, after := Stamps(os), Stamps(os + [o]);
    if o.Stamped? {
      assert after == before + [o.time] && after[..|before|] == before;
    } else {
      assert after == before;
    }
  }

  /** Successful writes of the refill time lie at least one interval apart. */
  lemma {:induction false} StampsSpaced(cfg: LimitItem, s0: State, es: seq<Event>)
    requires Initial(cfg, s0)
    ensures StampsOk(cfg, Abs(Exec(cfg, s0, es)), Outcomes(cfg, s0, es))
  {
    if es != [] {
      var n := |es| - 1;
      var s := Exec(cfg, s0, es[..n]);
      StampsSpaced(cfg, s0, es[..n]);
      ReachableInv(cfg, s0, es[..n]);
      NextRefines(cfg, s, es[n]);
      StampsOkStep(cfg, Abs(s), Outcomes(cfg, s0, es[..n]), Next(cfg, s, es[n]).1, Abs(Next(cfg, s, es[n]).0));
    }
  }

  lemma NextOwes(cfg: LimitItem, s: State, e: Event)
    ensures var (s', o) := Next(cfg, s, e);
            && Owed(s'.vms) + (if o.Refilled? then 1 else 0)
               <= Owed(s.vms) + (if o.Stamped? || o.BlindStamp? then 1 else 0)
            && (!(e.Step? && e.fault) ==>
                  && !o.BlindStamp?
                  && Owed(s'.vms) + (if o.Refilled? then 1 else 0) == Owed(s.vms) + (if o.Stamped? then 1 else 0))
  {
    hide Owed;
    if e.Step? && e.vm < |s.vms| {
      OwedAfterUpdate(s.vms, e.vm, Next(cfg, s, e).0.vms[e.vm]);
    } else if e.Call? && e.vm < |s.vms| {
      OwedAfterUpdate(s.vms, e.vm, Next(cfg, s, e).0.vms[e.vm]);
    }
  }

  /** Each refill of the bucket is licensed by one write of the refill time, successful or blind;
      without host faults every licence is used or still owed. */
  lemma {:induction false} RefillsLicensed(cfg: LimitItem, s0: State, es: seq<Event>)
    requires Initial(cfg, s0)
    ensures var os := Outcomes(cfg, s0, es); var owed := Owed(Exec(cfg, s0, es).vms);
            && CountFills(os) + owed <= |Stamps(os)| + CountBlind(os)
            && (FaultFree(es) ==> CountBlind(os) == 0 && CountFills(os) + owed == |Stamps(os)|)
  {
    if es == [] {
      NothingOwedAtStart(s0.vms);
    } else {
      var n := |es| - 1;
      RefillsLicensed(cfg, s0, es[..n]);
      NextOwes(cfg, Exec(cfg, s0, es[..n]), es[n]);
      assert FaultFree(es) ==> FaultFree(es[..n]) && !(es[n].Step? && es[n].fault);
    }
  }

  lemma {:induction false} RefilledStep(cfg: LimitItem, b: Bucket, os: seq<Outcome>, o: Outcome, b': Bucket)
    requires TotalRefilled(os) <= CountFills(os) * cfg.tokensPerRefill && AtomicStep(cfg, b, o, b')
    ensures TotalRefilled(os + [o]) <= CountFills(os + [o]) * cfg.tokensPerRefill
  {
    assert (os + [o])[..|os|] == os;
    var k := CountFills(os);
    assert (k + 1) * cfg.tokensPerRefill == k * cfg.tokensPerRefill + cfg.tokensPerRefill;
    RefillAddsAtMost(cfg, b.tokens);
  }

  lemma {:induction false} RefilledAtMost(cfg: LimitItem, s0: State, es: seq<Event>)
    requires Initial(cfg, s0)
    ensures var os := Outcomes(cfg, s0, es); TotalRefilled(os) <= CountFills(os) * cfg.tokensPerRefill
  {
    if es != [] {
      var n := |es| - 1;
      var s := Exec(cfg, s0, es[..n]);
      RefilledAtMost(cfg, s0, es[..n]);
      ReachableInv(cfg, s0, es[..n]);
      NextRefines(cfg, s, es[n]);
      RefilledStep(cfg, Abs(s), Outcomes(cfg, s0, es[..n]), Next(cfg, s, es[n]).1, Abs(Next(cfg, s, es[n]).0));
    }
  }

  /** A refill adds between 0 and tokensPerRefill tokens, unless the 64-bit sum wraps:
      then, and only then, it can take tokens away from a bucket that is not over its cap. */
  lemma RefillAddsAtMost(cfg: LimitItem, tokens: uint64)
    ensures Refill(cfg, tokens) - tokens <= cfg.tokensPerRefill
    ensures tokens <= cfg.maxTokens ==> (Refill(cfg, tokens) < tokens <==> tokens + cfg.tokensPerRefill >= TWO_64)
  {
  }

  lemma {:induction false} SpacedSpan(stamps: seq<int>, interval: int)
    requires Spaced(stamps, interval) && stamps != []
    ensures (|stamps| - 1) * interval <= stamps[|stamps| - 1] - stamps[0]
  {
    if |stamps| > 1 {
      var n := |stamps| - 1;
      SpacedSpan(stamps[..n], interval);
      assert n * interval == (n - 1) * interval + interval;
    }
  }

  /** The rate bound of the limiter, for every interleaving of any number of VMs and any host
      faults: with k successful writes of the refill time, at most maxTokens + k * tokensPerRefill
      requests are paid for (plus one refill per failed write of the refill time), and those k
      writes took at least k - 1 intervals. Fail-open grants are not paid and not counted here. */
  lemma PaidGrantsBounded(cfg: LimitItem, s0: State, es: seq<Event>)
    requires Initial(cfg, s0)
    ensures var os := Outcomes(cfg, s0, es); var st := Stamps(os);
            && CountPaid(os) <= cfg.maxTokens + (|st| + CountBlind(os)) * cfg.tokensPerRefill
            && (st != [] ==> (|st| - 1) * cfg.refillIntervalNanosec <= st[|st| - 1] - st[0])
            && (FaultFree(es) ==> CountPaid(os) <= cfg.maxTokens + |st| * cfg.tokensPerRefill)
  {
    var os := Outcomes(cfg, s0, es);
    TokensConserved(cfg, s0, es);
    RefilledAtMost(cfg, s0, es);
    RefillsLicensed(cfg, s0, es);
    StampsSpaced(cfg, s0, es);
    MulMono(CountFills(os), |Stamps(os)| + CountBlind(os), cfg.tokensPerRefill);
    if Stamps(os) != [] { SpacedSpan(Stamps(os), cfg.refillIntervalNanosec); }
  }

  lemma MulMono(a: nat, b: nat, c: nat)
    requires a <= b
    ensures a * c <= b * c
  {
  }

  // ---------------------------------------------------------------------------------------
  // Fail-open grants are rare without host faults

  /** Writes of the token cell among some outcomes. */
  function Writes(os: seq<Outcome>): nat { CountPaid(os) + CountFills(os) }

  lemma NextVersion(cfg: LimitItem, s: State, e: Event)
    ensures var (s', o) := Next(cfg, s, e);
            s'.tokens.version == s.tokens.version + if o.Paid? || o.Refilled? then 1 else 0
  {
  }

  lemma {:induction false} VersionCountsWrites(cfg: LimitItem, s0: State, es: seq<Event>)
    ensures Exec(cfg, s0, es).tokens.version == s0.tokens.version + Writes(Outcomes(cfg, s0, es))
  {
    if es != [] {
      var n := |es| - 1;
      VersionCountsWrites(cfg, s0, es[..n]);
      NextVersion(cfg, Exec(cfg, s0, es[..n]), es[n]);
      WritesAppend(Outcomes(cfg, s0, es[..n]), Outcomes(cfg, s0, es)[n]);
    }
  }

  lemma WritesAppend(os: seq<Outcome>, o: Outcome)
    ensures Writes(os + [o]) == Writes(os) + if o.Paid? || o.Refilled? then 1 else 0
  {
  }

  /** VM i is in a call of getToken. */
  predicate InCall(s: State, i: nat) { i < |s.vms| && (s.vms[i].GetLoad? || s.vms[i].GetStore?) }

  /** The call that VM i is in began with event k: it was idle before and has been in the call ever since. */
  ghost predicate Began(cfg: LimitItem, s0: State, es: seq<Event>, i: nat, k: nat) {
    && k < |es|
    && es[k] == Call(i, GetToken)
    && (var s := Exec(cfg, s0, es[..k]); i < |s.vms| && s.vms[i].Idle?)
    && (forall j | k < j <= |es| :: InCall(Exec(cfg, s0, es[..j]), i))
  }

  lemma BeganOnce(cfg: LimitItem, s0: State, es: seq<Event>, i: nat, k: nat, m: nat)
    requires Began(cfg, s0, es, i, k) && Began(cfg, s0, es, i, m)
    ensures k == m
  {
    if k != m { assert false; }
  }

  lemma BeganStep(cfg: LimitItem, s0: State, es: seq<Event>, i: nat, k: nat)
    requires es != [] && Began(cfg, s0, es[..|es| - 1], i, k) && InCall(Exec(cfg, s0, es), i)
    ensures Began(cfg, s0, es, i, k) && es[..|es| - 1][..k] == es[..k]
  {
    hide Exec, InCall;
    var n := |es| - 1;
    assert es[..n][..k] == es[..k] && es[..|es|] == es;
    forall j | k < j <= |es| ensures InCall(Exec(cfg, s0, es[..j]), i) {
      if j <= n { assert es[..n][..j] == es[..j]; }
    }
  }

  /** Without faults, each failed attempt has met another VM's successful write. */
  predicate Contended(cell: Cell, pc: Pc) {
    match pc
    case GetLoad(a, b) => b + a <= cell.version
    case GetStore(a, b, c) => b + a <= c.version <= cell.version
    case _ => true
  }

  /** Every event starts a call of getToken on VM i or leaves it as contended as it was. */
  lemma CallStep(cfg: LimitItem, s: State, e: Event, i: nat)
    requires Inv(cfg, s) && !(e.Step? && e.fault)
    requires InCall(Next(cfg, s, e).0, i)
    ensures i < |s.vms|
    ensures var pc, t := s.vms[i], Next(cfg, s, e).0;
            if e == Call(i, GetToken) && pc.Idle?
            then t.vms[i].born == s.tokens.version && Contended(t.tokens, t.vms[i])
            else
              && InCall(s, i)
              && t.vms[i].born == pc.born
              && (Contended(s.tokens, pc) ==> Contended(t.tokens, t.vms[i]))
  {
    assert PcOk(cfg, s, s.vms[i]);
  }

  lemma {:induction false} CallsAreBorn(cfg: LimitItem, s0: State, es: seq<Event>, i: nat)
    returns (k: nat)
    requires Initial(cfg, s0) && FaultFree(es) && InCall(Exec(cfg, s0, es), i)
    ensures Began(cfg, s0, es, i, k)
    ensures var s := Exec(cfg, s0, es);
            s.vms[i].born == Exec(cfg, s0, es[..k]).tokens.version && Contended(s.tokens, s.vms[i])
  {
    if es == [] { assert false; }
    hide Next, Inv, Contended;
    var n := |es| - 1;
    var s := Exec(cfg, s0, es[..n]);
    ReachableInv(cfg, s0, es[..n]);
    CallStep(cfg, s, es[n], i);
    if es[n] == Call(i, GetToken) && s.vms[i].Idle? {
      assert es[..|es|] == es;
      k := n;
    } else {
      k := CallsAreBorn(cfg, s0, es[..n], i);
      BeganStep(cfg, s0, es, i, k);
    }
  }

  /** Without host faults, getToken lets a request pass unpaid only if at least 20 writes of the
      token cell succeeded during that very call: every lost race is some other VM's progress. */
  lemma {:induction false} FailOpenNeedsTwentyWrites(cfg: LimitItem, s0: State, es: seq<Event>, i: nat)
    returns (k: nat)
    requires Initial(cfg, s0) && FaultFree(es)
    requires Next(cfg, Exec(cfg, s0, es), Step(i, false)).1 == FailOpen
    ensures Began(cfg, s0, es, i, k) && es[k] == Call(i, GetToken) && forall m | Began(cfg, s0, es, i, m) :: m == k
    ensures Writes(Outcomes(cfg, s0, es)) >= Writes(Outcomes(cfg, s0, es[..k])) + 20
  {
    ReachableInv(cfg, s0, es);
    var s := Exec(cfg, s0, es);
    assert PcOk(cfg, s, s.vms[i]);
    k := CallsAreBorn(cfg, s0, es, i);
    forall m | Began(cfg, s0, es, i, m) ensures m == k { BeganOnce(cfg, s0, es, i, k, m); }
    hide Began;
    VersionCountsWrites(cfg, s0, es);
    VersionCountsWrites(cfg, s0, es[..k]);
  }

  // ---------------------------------------------------------------------------------------
  // The retry loop as the plugin runs it

  /** Lets one VM run on, against the replies `host` gives to its calls number n, n + 1, ... */
  function RunGet(cfg: LimitItem, pc: Pc, host: nat -> Reply, n: nat): (r: (Outcome, nat))
    requires (pc.GetLoad? || pc.GetStore?) && pc.attempt < MAX_GET_TOKEN_RETRY
    decreases MAX_GET_TOKEN_RETRY - pc.attempt, if pc.GetLoad? then 1 else 0
  {
    var (pc', out) := Local(cfg, pc, host(n));
    if pc'.Idle? then (out, n + 1) else RunGet(cfg, pc', host, n + 1)
  }

  predicate LoadFails(host: nat -> Reply, n: nat) { !host(n).Loaded? }

  /** The cell is loaded, holds tokens, and has changed before the store. */
  predicate RaceLost(host: nat -> Reply, n: nat) {
    host(n).Loaded? && host(n).cell.value > 0 && host(n + 1) == CasMismatch
  }

  /** If every load fails the request passes unpaid after twenty host calls. */
  lemma {:induction false} TriesTwentyLoads(cfg: LimitItem, host: nat -> Reply, a: nat, n: nat)
    requires a < 20 && forall j: nat | n <= j < n + 20 - a :: LoadFails(host, j)
    ensures RunGet(cfg, GetLoad(a, 0), host, n) == (FailOpen, n + 20 - a)
    decreases 20 - a
  {
    assert LoadFails(host, n);
    if a < 19 { TriesTwentyLoads(cfg, host, a + 1, n + 1); }
  }

  /** If every race is lost it passes unpaid after forty. */
  lemma {:induction false} TriesTwentyRaces(cfg: LimitItem, host: nat -> Reply, a: nat, n: nat)
    requires a < 20 && forall m: nat | n <= m < n + 2 * (20 - a) && (m - n) % 2 == 0 :: RaceLost(host, m)
    ensures RunGet(cfg, GetLoad(a, 0), host, n) == (FailOpen, n + 2 * (20 - a))
    decreases 20 - a
  {
    assert RaceLost(host, n);
    RunTwice(cfg, host, a, n);
    if a < 19 { TriesTwentyRaces(cfg, host, a + 1, n + 2); }
  }

  lemma RunTwice(cfg: LimitItem, host: nat -> Reply, a: nat, n: nat)
    requires a < 20 && RaceLost(host, n)
    ensures RunGet(cfg, GetLoad(a, 0), host, n)
            == if a < 19 then RunGet(cfg, GetLoad(a + 1, 0), host, n + 2) else (FailOpen, n + 2)
  {
  }

  /** The first load that succeeds decides: an empty cell denies, and a store that succeeds pays. */
  lemma {:induction false} FirstLoadDecides(cfg: LimitItem, host: nat -> Reply, a: nat, n: nat, k: nat)
    requires a + k < 20 && !LoadFails(host, n + k) && forall j: nat | n <= j < n + k :: LoadFails(host, j)
    ensures host(n + k).cell.value == 0 ==> RunGet(cfg, GetLoad(a, 0), host, n) == (Denied, n + k + 1)
    ensures host(n + k).cell.value > 0 && host(n + k + 1) == Stored ==>
              RunGet(cfg, GetLoad(a, 0), host, n) == (Paid, n + k + 2)
    ensures host(n + k).cell.value > 0 && host(n + k + 1) != Stored && host(n + k + 1) != CasMismatch ==>
              RunGet(cfg, GetLoad(a, 0), host, n) == (FailOpen, n + k + 2)
    decreases k
  {
    if k > 0 {
      assert LoadFails(host, n);
      FirstLoadDecides(cfg, host, a + 1, n + 1, k - 1);
    }
  }

  /** The loop of getToken is the VM program of the machine, whatever the host replies: it
      returns false exactly on Denied, and otherwise lets the request pass. */
  method GetTokenLoop(cfg: LimitItem, host: nat -> Reply) returns (granted: bool, ghost out: Outcome, calls: nat)
    ensures (out, calls) == RunGet(cfg, GetLoad(0, 0), host, 0)
    ensures out in {Paid, FailOpen, Denied} && (granted <==> out != Denied)
    ensures calls <= 40
  {
    calls := 0;
    for i := 0 to MAX_GET_TOKEN_RETRY
      invariant calls <= 2 * i
      invariant i < MAX_GET_TOKEN_RETRY ==>
        RunGet(cfg, GetLoad(0, 0), host, 0) == RunGet(cfg, GetLoad(i, 0), host, calls)
      invariant i == MAX_GET_TOKEN_RETRY ==> RunGet(cfg, GetLoad(0, 0), host, 0) == (FailOpen, calls)
    {
      var got := host(calls);
      calls := calls + 1;
      if !got.Loaded? {
        continue;
      }
      if got.cell.value == 0 {
        return false, Denied, calls;
      }
      var res := host(calls);
      calls := calls + 1;
      if res == Stored {
        return true, Paid, calls;
      }
      if res == CasMismatch {
        continue;
      }
      return true, FailOpen, calls;
    }
    return true, FailOpen, calls;
  }
}
