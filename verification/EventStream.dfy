/**
 The incremental event-stream splitter of event_stream.rs: bytes arrive in arbitrary chunks, and
 `next` cuts one event at a time out of the buffer at the first doubled line end (or lone CRLF).
 */
module EventStream {
  import opened Wrappers

  type byte = b: int | 0 <= b < 256

  const CR: byte := 13
  const LF: byte := 10

  /** is_eol: the length of the line end at i, 0 when there is none. */
  function Eol(d: seq<byte>, i: nat): (n: nat)
    requires i < |d|
    ensures n > 0 <==> d[i] == CR || d[i] == LF
    ensures n <= 2 && i + n <= |d|
  {
    if i + 1 < |d| && d[i] == CR && d[i + 1] == LF then 2
    else if d[i] == CR || d[i] == LF then 1
    else 0
  }

  /** is_2eol: the length of the separator at i, 0 when there is none. */
  function Sep(d: seq<byte>, i: nat): nat
    requires i < |d|
  {
    var size1 := Eol(d, i);
    if size1 == 0 then 0
    else if i + size1 < |d| then
      var size2 := Eol(d, i + size1);
      if size2 == 0 then (if size1 == 2 then 2 else 0) else size1 + size2
    else if size1 == 2 then 2
    else 0
  }

  predicate LineEnd(b: byte) { b == CR || b == LF }

  /** A separator starts exactly where two line-end bytes stand side by side. It is all line ends. */
  lemma SepIffTwoLineEnds(d: seq<byte>, i: nat)
    requires i < |d|
    ensures Sep(d, i) > 0 <==> i + 1 < |d| && d[i] in {10, 13} && d[i + 1] in {10, 13}
    ensures Sep(d, i) > 0 ==> 2 <= Sep(d, i) <= 4 && i + Sep(d, i) <= |d|
    ensures forall j | i <= j < i + Sep(d, i) :: j < |d| && LineEnd(d[j])
  {
  }

  /** The leftmost position from i on where a separator starts, |d| when there is none. */
  function First(d: seq<byte>, i: nat): (k: nat)
    requires i <= |d|
    ensures i <= k <= |d|
    ensures forall j | i <= j < k :: Sep(d, j) == 0
    ensures k < |d| ==> Sep(d, k) > 0
    decreases |d| - i
  {
    if i == |d| || Sep(d, i) > 0 then i else First(d, i + 1)
  }

  lemma FirstStep(d: seq<byte>, i: nat)
    requires i <= |d|
    ensures First(d, i) == if i == |d| || Sep(d, i) > 0 then i else First(d, i + 1)
  {
  }

  /** Separators depend only on the bytes from their start on. */
  lemma SepSuffix(d: seq<byte>, p: nat, i: nat)
    requires p + i < |d|
    ensures Sep(d, p + i) == Sep(d[p..], i)
  {
  }

  /** One emitted event with the separator that ended it. */
  datatype Cut = Cut(event: seq<byte>, sep: seq<byte>) {
    function Bytes(): seq<byte> { event + sep }
  }

  /** What `next` cuts off the unread bytes d. */
  function NextCut(d: seq<byte>): (r: Option<Cut>)
    ensures r.Some? ==> |r.value.event| + |r.value.sep| <= |d| && |r.value.sep| >= 2
    ensures r.None? <==> forall j | 0 <= j < |d| :: Sep(d, j) == 0
  {
    var k := First(d, 0);
    if k == |d| then None
    else
      SepIffTwoLineEnds(d, k);
      Some(Cut(d[..k], d[k..k + Sep(d, k)]))
  }

  /**
   The cut is determined by the stream format alone: the separator is a run of line ends, and the
   event before it holds no two adjacent line ends and does not end in one.
   */
  lemma NextIsLeftmost(d: seq<byte>)
    requires NextCut(d).Some?
    ensures var c := NextCut(d).value;
            && (forall j | 0 <= j < |c.sep| :: LineEnd(c.sep[j]))
            && (forall j | 0 < j < |c.event| :: !(LineEnd(c.event[j - 1]) && LineEnd(c.event[j])))
            && (c.event != [] ==> !LineEnd(c.event[|c.event| - 1]))
  {
    var c := NextCut(d).value;
    var k := |c.event|;
    SepIffTwoLineEnds(d, k);
    forall j | 0 < j <= k ensures !(LineEnd(d[j - 1]) && LineEnd(d[j])) {
      SepIffTwoLineEnds(d, j - 1);
    }
  }

  /** The unread bytes after `next`. */
  function AfterNext(d: seq<byte>): seq<byte> {
    if NextCut(d).None? then d else d[|NextCut(d).value.event| + |NextCut(d).value.sep|..]
  }

  /** The cut and the remainder, by where the separator starts. */
  lemma {:induction false} NextAt(d: seq<byte>)
    ensures First(d, 0) == |d| <==> NextCut(d).None?
    ensures First(d, 0) < |d| ==>
              var k := First(d, 0);
              var n := Sep(d, k);
              && k + n <= |d| && n >= 2
              && NextCut(d) == Some(Cut(d[..k], d[k..k + n]))
              && AfterNext(d) == d[k + n..]
    ensures First(d, 0) == |d| ==> AfterNext(d) == d
  {
    hide First, Sep;
    if First(d, 0) < |d| { SepIffTwoLineEnds(d, First(d, 0)); }
  }

  /** `next` takes a prefix of the unread bytes and leaves the rest. */
  lemma NextSplits(d: seq<byte>)
    requires NextCut(d).Some?
    ensures d == NextCut(d).value.Bytes() + AfterNext(d)
  {
    hide First, Sep, NextCut, AfterNext;
    NextAt(d);
  }

  // ---- Any run of calls ----

  datatype Op = Update(data: seq<byte>) | TakeNext | Flush

  /** The unread bytes after one call, and the bytes the call took out of the stream. */
  function Unread(d: seq<byte>, op: Op): seq<byte> {
    match op
    case Update(data) => d + data
    case TakeNext => AfterNext(d)
    case Flush => []
  }

  function Took(d: seq<byte>, op: Op): seq<byte> {
    match op
    case Update(_) => []
    case TakeNext => if NextCut(d).None? then [] else NextCut(d).value.Bytes()
    case Flush => d
  }

  function RunUnread(ops: seq<Op>): seq<byte> {
    if ops == [] then [] else Unread(RunUnread(ops[..|ops| - 1]), ops[|ops| - 1])
  }

  function RunTook(ops: seq<Op>): seq<byte> {
    if ops == [] then []
    else RunTook(ops[..|ops| - 1]) + Took(RunUnread(ops[..|ops| - 1]), ops[|ops| - 1])
  }

  function Fed(ops: seq<Op>): seq<byte> {
    if ops == [] then []
    else
      var last := ops[|ops| - 1];
      Fed(ops[..|ops| - 1]) + (if last.Update? then last.data else [])
  }

  function EventsTaken(ops: seq<Op>): nat {
    if ops == [] then 0
    else
      var d := RunUnread(ops[..|ops| - 1]);
      EventsTaken(ops[..|ops| - 1]) + (if ops[|ops| - 1].TakeNext? && NextCut(d).Some? then 1 else 0)
  }

  lemma EventsTakenStep(ops: seq<Op>, op: Op)
    ensures EventsTaken([]) == 0
    ensures EventsTaken(ops + [op])
            == EventsTaken(ops) + if op == TakeNext && NextCut(RunUnread(ops)).Some? then 1 else 0
  {
    assert (ops + [op])[..|ops|] == ops;
  }

  /**
   Over every run of update, next and flush, the events and separators taken, then the unread bytes,
   are the bytes fed in, in order; and no run takes more events than half the bytes fed in.
   */
  lemma {:induction false} Conserved(ops: seq<Op>)
    ensures RunTook(ops) + RunUnread(ops) == Fed(ops)
    ensures 2 * EventsTaken(ops) <= |RunTook(ops)|
  {
    if ops != [] {
      var run := ops[..|ops| - 1];
      var op, d := ops[|ops| - 1], RunUnread(run);
      Conserved(run);
      if op.TakeNext? && NextCut(d).Some? { NextSplits(d); }
      assert op.Update? || Took(d, op) + Unread(d, op) == d;
      if op.Update? { ConcatAssoc(RunTook(run), d, op.data); }
      ConcatAssoc(RunTook(run), Took(d, op), Unread(d, op));
    }
  }

  // ---- Draining, and when chunk boundaries can be seen ----

  /** The cuts of calling `next` until it gives nothing, and what then stays unread. */
  function Cuts(d: seq<byte>): seq<Cut>
    decreases |d|
  {
    if NextCut(d).None? then [] else [NextCut(d).value] + Cuts(AfterNext(d))
  }

  function Rest(d: seq<byte>): seq<byte>
    decreases |d|
  {
    if NextCut(d).None? then d else Rest(AfterNext(d))
  }

  /** How many bytes of b the separator s, which ends the buffer, would have taken as well. */
  function Extra(s: seq<byte>, b: seq<byte>): nat {
    if b == [] then 0
    else if s == [CR, LF] then Eol(b, 0)
    else if s != [] && s[|s| - 1] == CR && b[0] == LF then 1
    else 0
  }

  lemma ExtraPrefix(s: seq<byte>, b: seq<byte>, c: seq<byte>)
    requires b <= c && Extra(s, b) > 0
    ensures Extra(s, c) > 0
  {
  }

  lemma ExtraFits(s: seq<byte>, b: seq<byte>)
    ensures Extra(s, b) <= |b|
  {
  }

  /** The bytes b would have lengthened the last separator cut out of a, which ended a. */
  predicate Grows(a: seq<byte>, b: seq<byte>) {
    Rest(a) == [] && Cuts(a) != [] && Extra(Cuts(a)[|Cuts(a)| - 1].sep, b) > 0
  }

  /** More data never moves a separator; it lengthens one only at the very end of the buffer. */
  lemma SepAppend(d: seq<byte>, b: seq<byte>, i: nat)
    requires i < |d| && Sep(d, i) > 0
    ensures var n := Sep(d, i);
            Sep(d + b, i) == if i + n == |d| then n + Extra(d[i..i + n], b) else n
  {
    SepIffTwoLineEnds(d, i);
    var n, n1, e := Sep(d, i), Eol(d, i), d + b;
    var s := d[i..i + n];
    assert s[0] == d[i] && s[1] == d[i + 1] && s[n - 1] == d[i + n - 1];
    assert Eol(e, i) == n1;
    assert s == [CR, LF] <==> n == 2 && n1 == 2;
    if i + n == |d| && b != [] {
      assert e[|d|] == b[0] && (|b| > 1 ==> e[|d| + 1] == b[1]);
      if s == [CR, LF] { assert Eol(e, |d|) == Eol(b, 0); }
    }
  }

  lemma NoSepAppend(d: seq<byte>, b: seq<byte>, i: nat)
    requires i + 1 < |d| && Sep(d, i) == 0
    ensures Sep(d + b, i) == 0
  {
  }

  lemma FirstAppend(d: seq<byte>, b: seq<byte>, i: nat)
    requires i <= |d| && First(d, i) < |d|
    ensures First(d + b, i) == First(d, i)
    decreases |d| - i
  {
    SepIffTwoLineEnds(d, First(d, i));
    if Sep(d, i) > 0 {
      SepAppend(d, b, i);
    } else {
      NoSepAppend(d, b, i);
      FirstAppend(d, b, i + 1);
    }
  }

  lemma Slices(d: seq<byte>, b: seq<byte>, k: nat, n: nat, x: nat)
    requires k + n <= |d| && x <= |b| && (x == 0 || k + n == |d|)
    ensures (d + b)[..k] == d[..k] && (d + b)[k..k + n + x] == d[k..k + n] + b[..x]
    ensures (d + b)[k + n + x..] == d[k + n..] + b[x..]
  {
  }

  /** The next cut after more data: same event, and a separator longer by Extra at most. */
  lemma {:induction false} NextAppend(d: seq<byte>, b: seq<byte>)
    requires NextCut(d).Some?
    ensures var c, x := NextCut(d).value, if AfterNext(d) == [] then Extra(NextCut(d).value.sep, b) else 0;
            && x <= |b|
            && NextCut(d + b) == Some(Cut(c.event, c.sep + b[..x]))
            && AfterNext(d + b) == AfterNext(d) + b[x..]
  {
    hide Sep, Extra, NextCut, AfterNext, First;
    NextAt(d);
    NextAt(d + b);
    var k := First(d, 0);
    var n := Sep(d, k);
    var s := d[k..k + n];
    ExtraFits(s, b);
    FirstAppend(d, b, 0);
    SepAppend(d, b, k);
    Slices(d, b, k, n, if k + n == |d| then Extra(s, b) else 0);
  }

  /** Across a boundary that lengthens no separator, draining twice is draining once. */
  lemma {:induction false} DrainAppend(a: seq<byte>, b: seq<byte>)
    requires !Grows(a, b)
    ensures Cuts(a + b) == Cuts(a) + Cuts(Rest(a) + b)
    ensures Rest(a + b) == Rest(Rest(a) + b)
    decreases |a|
  {
    hide NextCut, AfterNext, Extra;
    if NextCut(a).Some? {
      var r, c := AfterNext(a), NextCut(a).value;
      NextSplits(a);
      NextAppend(a, b);
      assert b[..0] == [] && b[0..] == b && c.sep + [] == c.sep;
      assert Cuts(a) == [c] + Cuts(r);
      assert !Grows(r, b) && NextCut(a + b) == NextCut(a) && AfterNext(a + b) == r + b;
      DrainAppend(r, b);
    }
  }

  /** Across any other boundary the last separator cut before it comes out longer in one piece. */
  lemma {:induction false} DrainGrows(a: seq<byte>, b: seq<byte>)
    requires Grows(a, b)
    ensures |Cuts(a)| <= |Cuts(a + b)|
    ensures |Cuts(a)[|Cuts(a)| - 1].sep| < |Cuts(a + b)[|Cuts(a)| - 1].sep|
    decreases |a|
  {
    hide NextCut, AfterNext, Extra;
    var r, c := AfterNext(a), NextCut(a).value;
    NextSplits(a);
    NextAppend(a, b);
    assert Cuts(a) == [c] + Cuts(r);
    assert Rest(a) == Rest(r);
    assert Cuts(a + b)[0] == NextCut(a + b).value;
    if Cuts(r) != [] {
      assert b[..0] == [] && b[0..] == b;
      DrainGrows(r, b);
    }
  }

  function Join(chunks: seq<seq<byte>>): seq<byte> {
    if chunks == [] then [] else Join(chunks[..|chunks| - 1]) + chunks[|chunks| - 1]
  }

  /** Feeding the chunks one by one and draining after each: all cuts, and what stays unread. */
  function FedCuts(chunks: seq<seq<byte>>): seq<Cut> {
    if chunks == [] then []
    else FedCuts(chunks[..|chunks| - 1]) + Cuts(FedRest(chunks[..|chunks| - 1]) + chunks[|chunks| - 1])
  }

  function FedRest(chunks: seq<seq<byte>>): seq<byte> {
    if chunks == [] then [] else Rest(FedRest(chunks[..|chunks| - 1]) + chunks[|chunks| - 1])
  }

  /** No boundary of the chunk list lengthens the separator that ended the data before it. */
  predicate Stable(chunks: seq<seq<byte>>) {
    forall i | 0 <= i < |chunks| :: !Grows(Join(chunks[..i]), chunks[i])
  }

  lemma {:induction false} StablePrefix(chunks: seq<seq<byte>>, n: nat)
    requires n < |chunks| && Stable(chunks)
    ensures Stable(chunks[..n]) && !Grows(Join(chunks[..n]), chunks[n])
  {
    hide Grows, Join;
    assert forall i | 0 <= i < n :: chunks[..n][..i] == chunks[..i];
  }

  lemma {:induction false} StableDrains(chunks: seq<seq<byte>>)
    requires Stable(chunks)
    ensures FedCuts(chunks) == Cuts(Join(chunks)) && FedRest(chunks) == Rest(Join(chunks))
  {
    if chunks != [] {
      hide Cuts, Rest, Grows, Stable;
      var n := |chunks| - 1;
      StablePrefix(chunks, n);
      StableDrains(chunks[..n]);
      DrainAppend(Join(chunks[..n]), chunks[n]);
    }
  }

  /** Cuts handed out are never taken back, and the joined data only grows. */
  lemma {:induction false} PrefixKept(chunks: seq<seq<byte>>, i: nat)
    requires i <= |chunks|
    ensures FedCuts(chunks[..i]) <= FedCuts(chunks) && Join(chunks[..i]) <= Join(chunks)
    decreases |chunks|
  {
    if i < |chunks| {
      assert chunks[..|chunks| - 1][..i] == chunks[..i];
      PrefixKept(chunks[..|chunks| - 1], i);
    } else {
      assert chunks[..i] == chunks;
    }
  }

  lemma JoinLast(chunks: seq<seq<byte>>, i: nat)
    requires i < |chunks|
    ensures Join(chunks[..i + 1]) == Join(chunks[..i]) + chunks[i]
  {
    assert chunks[..i + 1][..i] == chunks[..i];
  }

  lemma {:induction false} UnstableShows(chunks: seq<seq<byte>>, i: nat)
    requires i < |chunks| && Stable(chunks[..i]) && Grows(Join(chunks[..i]), chunks[i])
    ensures FedCuts(chunks) != Cuts(Join(chunks))
  {
    hide Cuts, FedRest, Rest, Extra, Stable, FedCuts, Join;
    var a := Join(chunks[..i]);
    StableDrains(chunks[..i]);
    PrefixKept(chunks, i);
    assert chunks[..i + 1][..i] == chunks[..i];
    PrefixKept(chunks, i + 1);
    var b := Join(chunks)[|a|..];
    assert Join(chunks) == a + b;
    assert Join(chunks[..i + 1]) == a + chunks[i] by { JoinLast(chunks, i); }
    assert chunks[i] <= b;
    ExtraPrefix(Cuts(a)[|Cuts(a)| - 1].sep, chunks[i], b);
    DrainGrows(a, b);
  }

  /** The first boundary in a chunk list that lengthens a separator. */
  lemma {:induction false} FirstUnstable(chunks: seq<seq<byte>>) returns (i: nat)
    requires !Stable(chunks)
    ensures i < |chunks| && Stable(chunks[..i]) && Grows(Join(chunks[..i]), chunks[i])
  {
    hide Grows, Join;
    i := 0;
    while !Grows(Join(chunks[..i]), chunks[i])
      invariant i < |chunks|
      invariant forall j | 0 <= j < i :: !Grows(Join(chunks[..j]), chunks[j])
      invariant exists j :: i <= j < |chunks| && Grows(Join(chunks[..j]), chunks[j])
      decreases |chunks| - i
    {
      i := i + 1;
    }
    assert forall j | 0 <= j < i :: chunks[..i][..j] == chunks[..j] && chunks[..i][j] == chunks[j];
  }

  /**
   Draining after every chunk gives the events with their separators, and the remainder, of the whole
   stream if and only if no boundary lengthens a separator.
   */
  lemma {:induction false} SeparatorsSameIff(chunks: seq<seq<byte>>)
    ensures FedCuts(chunks) == Cuts(Join(chunks)) && FedRest(chunks) == Rest(Join(chunks)) <==> Stable(chunks)
  {
    if Stable(chunks) {
      StableDrains(chunks);
    } else {
      var i := FirstUnstable(chunks);
      UnstableShows(chunks, i);
    }
  }

  // ---- What a caller of `next` sees: events without their separators ----

  function Events(cuts: seq<Cut>): (es: seq<seq<byte>>)
    ensures |es| == |cuts| && forall i | 0 <= i < |es| :: es[i] == cuts[i].event
  {
    seq(|cuts|, i requires 0 <= i < |cuts| => cuts[i].event)
  }

  lemma EventsAppend(x: seq<Cut>, y: seq<Cut>)
    ensures Events(x + y) == Events(x) + Events(y)
  {
  }

  /** Draining c and d gives the same events and leaves the same bytes unread. */
  predicate SeenAlike(c: seq<byte>, d: seq<byte>) { Events(Cuts(c)) == Events(Cuts(d)) && Rest(c) == Rest(d) }

  /** The lengths of the line ends that d starts with. */
  function Tokens(d: seq<byte>): seq<nat>
    decreases |d|
  {
    if d == [] || Eol(d, 0) == 0 then [] else [Eol(d, 0)] + Tokens(d[Eol(d, 0)..])
  }

  /** d starts with an odd number of line ends, the last of them CR LF. */
  predicate OddUpToCrLf(d: seq<byte>) {
    var t := Tokens(d);
    |t| % 2 == 1 && t[|t| - 1] == 2
  }

  /** Draining c gives an empty event, and then what draining d gives. */
  predicate EmptyThen(c: seq<byte>, d: seq<byte>) {
    Events(Cuts(c)) == [[]] + Events(Cuts(d)) && Rest(c) == Rest(d)
  }

  /** A separator right at the start cuts off an empty event. */
  lemma EmptyCut(d: seq<byte>)
    requires d != [] && Sep(d, 0) > 0
    ensures Sep(d, 0) <= |d| && EmptyThen(d, d[Sep(d, 0)..])
  {
    hide Sep, First, Cuts, Rest, NextCut, AfterNext, Events;
    FirstStep(d, 0);
    NextAt(d);
    DrainStep(d);
    var c := NextCut(d).value;
    assert c.event == [];
    EventsAppend([c], Cuts(AfterNext(d)));
    OneEvent(c);
  }

  lemma OneEvent(c: Cut)
    ensures Events([c]) == [c.event]
  {
  }

  lemma DrainStep(d: seq<byte>)
    requires NextCut(d).Some?
    ensures Cuts(d) == [NextCut(d).value] + Cuts(AfterNext(d)) && Rest(d) == Rest(AfterNext(d))
  {
  }

  lemma {:induction false} FirstSuffix(d: seq<byte>, i: nat)
    requires 1 <= i <= |d|
    ensures First(d, i) == 1 + First(d[1..], i - 1)
    decreases |d| - i
  {
    hide Sep;
    if i < |d| {
      SepSuffix(d, 1, i - 1);
      FirstSuffix(d, i + 1);
    }
  }

  /** A single line end that is no separator belongs to what follows it, which changes what is seen. */
  lemma LoneLineEnd(d: seq<byte>)
    requires d != [] && Eol(d, 0) == 1 && Sep(d, 0) == 0
    ensures !SeenAlike(d, d[1..])
    ensures Events(Cuts(d)) != [] ==> Events(Cuts(d))[0] != []
  {
    hide Sep, Eol, NextCut, AfterNext;
    var r := d[1..];
    FirstStep(d, 0);
    FirstSuffix(d, 1);
    NextAt(d);
    NextAt(r);
    assert First(d, 0) == 1 + First(r, 0);
    assert NextCut(d).Some? ==> |Events(Cuts(d))[0]| == 1 + |Events(Cuts(r))[0]|;
  }

  lemma SepBySizes(d: seq<byte>)
    requires d != [] && Eol(d, 0) > 0
    ensures var n := Eol(d, 0);
            Sep(d, 0) == if n < |d| && Eol(d[n..], 0) > 0 then n + Eol(d[n..], 0) else if n == 2 then 2 else 0
  {
    var n := Eol(d, 0);
    if n < |d| { assert Eol(d[n..], 0) == Eol(d, n); }
  }

  /** What is seen with and without a leading line end: the same exactly in front of an odd run up to CR LF. */
  lemma {:induction false} LineEndDroppedIff(b: seq<byte>)
    requires b != [] && Eol(b, 0) > 0
    ensures SeenAlike(b, b[Eol(b, 0)..]) <==> OddUpToCrLf(b[Eol(b, 0)..])
    decreases |b|
  {
    hide Sep, Eol, Tokens, SeenAlike, OddUpToCrLf, EmptyThen, Events, Cuts, Rest;
    var n := Eol(b, 0);
    var c := b[n..];
    SepBySizes(b);
    if c == [] || Eol(c, 0) == 0 {
      NotOdd(c);
      if n == 2 { EmptyCut(b); EmptyMore(b, c); } else { LoneLineEnd(b); }
      return;
    }
    var m := Eol(c, 0);
    var d := c[m..];
    EmptyCut(b);
    TailOfTail(b, n, m);
    SepBySizes(c);
    if d == [] || Eol(d, 0) == 0 {
      OneToken(c);
      if m == 2 { EmptyCut(c); EmptyBoth(b, d, c, d); } else { LoneLineEnd(c); EmptyOnce(b, d, c); }
      return;
    }
    EmptyCut(c);
    TailOfTail(c, m, Eol(d, 0));
    LineEndDroppedIff(d);
    TwoTokens(c);
    EmptyBoth(b, d, c, d[Eol(d, 0)..]);
  }

  lemma TailOfTail(b: seq<byte>, n: nat, m: nat)
    requires n + m <= |b|
    ensures b[n + m..] == b[n..][m..]
  {
  }

  // What EmptyThen says of two sides, compared.

  lemma EmptyMore(b: seq<byte>, c: seq<byte>)
    requires EmptyThen(b, c)
    ensures !SeenAlike(b, c)
  {
    hide Cuts, Rest, Events;
    assert |Events(Cuts(b))| != |Events(Cuts(c))|;
  }

  lemma EmptyOnce(b: seq<byte>, d: seq<byte>, c: seq<byte>)
    requires EmptyThen(b, d) && (Events(Cuts(c)) != [] ==> Events(Cuts(c))[0] != [])
    ensures !SeenAlike(b, c)
  {
    hide Cuts, Rest, Events;
    assert Events(Cuts(b))[0] == [];
  }

  lemma EmptyBoth(b: seq<byte>, d: seq<byte>, c: seq<byte>, e: seq<byte>)
    requires EmptyThen(b, d) && EmptyThen(c, e)
    ensures SeenAlike(b, c) <==> SeenAlike(d, e)
    ensures d == e ==> SeenAlike(b, c)
  {
    hide Cuts, Rest, Events;
    CancelLeft([[]], Events(Cuts(d)), Events(Cuts(e)));
  }

  lemma NotOdd(c: seq<byte>)
    requires c == [] || Eol(c, 0) == 0
    ensures !OddUpToCrLf(c)
  {
  }

  lemma OneToken(c: seq<byte>)
    requires c != [] && Eol(c, 0) > 0 && (c[Eol(c, 0)..] == [] || Eol(c[Eol(c, 0)..], 0) == 0)
    ensures OddUpToCrLf(c) <==> Eol(c, 0) == 2
  {
    hide Eol;
    TokensStep(c);
    TokensStep(c[Eol(c, 0)..]);
  }

  lemma TwoTokens(c: seq<byte>)
    requires c != [] && Eol(c, 0) > 0
    requires c[Eol(c, 0)..] != [] && Eol(c[Eol(c, 0)..], 0) > 0
    ensures var d := c[Eol(c, 0)..]; OddUpToCrLf(c) <==> OddUpToCrLf(d[Eol(d, 0)..])
  {
    hide Eol, Tokens;
    var d := c[Eol(c, 0)..];
    TokensStep(c);
    TokensStep(d);
    assert Tokens(c) == [Eol(c, 0), Eol(d, 0)] + Tokens(d[Eol(d, 0)..]);
  }

  lemma TokensStep(d: seq<byte>)
    ensures Tokens(d) == if d == [] || Eol(d, 0) == 0 then [] else [Eol(d, 0)] + Tokens(d[Eol(d, 0)..])
  {
  }

  /** Across an unstable boundary the whole gives the events before it, then those behind the line end. */
  lemma {:induction false} DrainGrowsEvents(a: seq<byte>, b: seq<byte>)
    requires Grows(a, b)
    ensures b != [] && Eol(b, 0) > 0
    ensures Events(Cuts(a + b)) == Events(Cuts(a)) + Events(Cuts(b[Eol(b, 0)..]))
    ensures Rest(a + b) == Rest(b[Eol(b, 0)..])
    decreases |a|
  {
    hide NextCut, AfterNext, Extra, Cuts, Rest, Eol;
    var r, c := AfterNext(a), if NextCut(a).Some? then NextCut(a).value else Cut([], []);
    SomeCut(a);
    DrainStep(a);
    NextSplits(a);
    NextAppend(a, b);
    ExtraIsEol(Cuts(a)[|Cuts(a)| - 1].sep, b);
    DrainStep(a + b);
    EventsAppend([c], Cuts(r));
    EmptyDrains();
    if Cuts(r) != [] {
      assert b[..0] == [] && b[0..] == b;
      assert AfterNext(a + b) == r + b;
      assert Cuts(a)[|Cuts(a)| - 1] == Cuts(r)[|Cuts(r)| - 1];
      DrainGrowsEvents(r, b);
      EventsAppend([NextCut(a + b).value], Cuts(AfterNext(a + b)));
      ConcatAssoc(Events([c]), Events(Cuts(r)), Events(Cuts(b[Eol(b, 0)..])));
    } else {
      NoCuts(r);
      assert Cuts(a) == [c] && r == [];
      EventsAppend([NextCut(a + b).value], Cuts(AfterNext(a + b)));
      assert [] + b[Eol(b, 0)..] == b[Eol(b, 0)..];
    }
    assert Events([NextCut(a + b).value]) == Events([c]);
  }

  lemma SomeCut(d: seq<byte>)
    ensures Cuts(d) != [] ==> NextCut(d).Some?
  {
  }

  lemma EmptyDrains()
    ensures Cuts([]) == [] && Rest([]) == []
  {
  }

  lemma NoCuts(d: seq<byte>)
    requires Cuts(d) == []
    ensures Rest(d) == d
  {
  }

  lemma ExtraIsEol(s: seq<byte>, b: seq<byte>)
    requires Extra(s, b) > 0
    ensures b != [] && Extra(s, b) == Eol(b, 0)
  {
  }

  /** The boundary lengthens no separator, or an odd run of line ends up to CR LF follows the one it adds. */
  predicate Unseen(a: seq<byte>, b: seq<byte>) {
    Grows(a, b) ==> b != [] && OddUpToCrLf(b[Eol(b, 0)..])
  }

  /** Whether b comes with a or after it makes no difference to events and remainder exactly if it is unseen. */
  lemma {:induction false} BoundaryUnseenIff(a: seq<byte>, b: seq<byte>)
    ensures Events(Cuts(a)) + Events(Cuts(Rest(a) + b)) == Events(Cuts(a + b)) && Rest(Rest(a) + b) == Rest(a + b)
            <==> Unseen(a, b)
  {
    hide Cuts, Rest, Extra, OddUpToCrLf, Eol, Events;
    if Grows(a, b) {
      DrainGrowsEvents(a, b);
      LineEndDroppedIff(b);
      assert Rest(a) + b == b;
      CancelLeft(Events(Cuts(a)), Events(Cuts(b)), Events(Cuts(b[Eol(b, 0)..])));
    } else {
      DrainAppend(a, b);
      EventsAppend(Cuts(a), Cuts(Rest(a) + b));
    }
  }

  lemma CancelLeft<T>(x: seq<T>, y: seq<T>, z: seq<T>)
    ensures x + y == x + z <==> y == z
  {
    assert (x + y)[|x|..] == y && (x + z)[|x|..] == z;
  }

  /** Such a boundary exists: "x" CR LF, then LF CR LF "y" LF LF gives x, nothing and y in one piece or two. */
  lemma LengthenedButUnseen()
    ensures var a: seq<byte>, b: seq<byte> := [120, 13, 10], [10, 13, 10, 121, 10, 10];
            Grows(a, b) && Unseen(a, b)
  {
    var a: seq<byte>, b: seq<byte> := [120, CR, LF], [LF, CR, LF, 121, LF, LF];
    assert First(a, 0) == First(a, 1) == 1;
    NextAt(a);
    assert a[3..] == [] && a[1..3] == [CR, LF];
    EmptyDrains();
    DrainStep(a);
    assert Eol(b, 0) == 1;
    var c := b[1..];
    assert Eol(c, 0) == 2 && Eol(c[2..], 0) == 0;
    TokensStep(c);
    TokensStep(c[2..]);
  }

  /** Drained after every chunk, the list has given the events and left the bytes of the whole data. */
  predicate SeenWhole(chunks: seq<seq<byte>>) {
    Events(FedCuts(chunks)) == Events(Cuts(Join(chunks))) && FedRest(chunks) == Rest(Join(chunks))
  }

  lemma {:induction false} SeenWholeStep(chunks: seq<seq<byte>>, n: nat)
    requires n < |chunks| && SeenWhole(chunks[..n])
    ensures SeenWhole(chunks[..n + 1]) <==> Unseen(Join(chunks[..n]), chunks[n])
  {
    hide Cuts, Rest, Unseen, Events;
    var run, a := chunks[..n], Join(chunks[..n]);
    assert chunks[..n + 1][..n] == run;
    BoundaryUnseenIff(a, chunks[n]);
    EventsAppend(FedCuts(run), Cuts(FedRest(run) + chunks[n]));
  }

  /**
   Chunking cannot be observed exactly under this condition: at every point of the stream the events
   handed out and the bytes left are those of all the data so far in one piece if and only if no
   boundary is seen. A boundary is seen if the data behind it would have lengthened the separator that
   ended the data before it, by a line end that is not followed by an odd run of line ends up to CR LF.
   */
  lemma {:induction false} ChunkingUnobservableIff(chunks: seq<seq<byte>>)
    ensures (forall n | 0 <= n <= |chunks| :: SeenWhole(chunks[..n]))
            <==> (forall i | 0 <= i < |chunks| :: Unseen(Join(chunks[..i]), chunks[i]))
  {
    hide SeenWhole, Unseen, Join;
    if forall n | 0 <= n <= |chunks| :: SeenWhole(chunks[..n]) {
      forall i | 0 <= i < |chunks| ensures Unseen(Join(chunks[..i]), chunks[i]) {
        assert SeenWhole(chunks[..i]) && SeenWhole(chunks[..i + 1]);
        SeenWholeStep(chunks, i);
      }
    }
    if forall i | 0 <= i < |chunks| :: Unseen(Join(chunks[..i]), chunks[i]) {
      forall n | 0 <= n <= |chunks| ensures SeenWhole(chunks[..n]) { UnseenSoFar(chunks, n); }
    }
  }

  lemma {:induction false} UnseenSoFar(chunks: seq<seq<byte>>, n: nat)
    requires n <= |chunks| && forall i | 0 <= i < n :: Unseen(Join(chunks[..i]), chunks[i])
    ensures SeenWhole(chunks[..n])
  {
    if n == 0 {
      NothingFed();
      assert chunks[..0] == [];
    } else {
      hide SeenWhole, Unseen, Join;
      UnseenSoFar(chunks, n - 1);
      SeenWholeStep(chunks, n - 1);
    }
  }

  lemma NothingFed()
    ensures SeenWhole([])
  {
  }

  lemma {:induction false} CutsFrom(d: seq<byte>)
    requires CR !in d
    ensures forall j | 0 <= j < |Cuts(d)| :: CR !in Cuts(d)[j].sep
    decreases |d|
  {
    hide NextCut, AfterNext;
    if NextCut(d).Some? {
      var c := NextCut(d).value;
      NextSplits(d);
      CutsFrom(AfterNext(d));
    }
  }

  lemma {:induction false} JoinFrom(chunks: seq<seq<byte>>)
    requires forall i | 0 <= i < |chunks| :: CR !in chunks[i]
    ensures CR !in Join(chunks)
  {
    if chunks != [] { JoinFrom(chunks[..|chunks| - 1]); }
  }

  /** Without CR in the stream every chunking gives exactly the events of the whole stream. */
  lemma {:induction false} NoCarriageReturns(chunks: seq<seq<byte>>)
    requires forall i | 0 <= i < |chunks| :: CR !in chunks[i]
    ensures FedCuts(chunks) == Cuts(Join(chunks)) && FedRest(chunks) == Rest(Join(chunks))
  {
    forall i | 0 <= i < |chunks| ensures !Grows(Join(chunks[..i]), chunks[i]) {
      JoinFrom(chunks[..i]);
      CutsFrom(Join(chunks[..i]));
    }
    StableDrains(chunks);
  }

  // ---- The object ----

  lemma SlicesFrom(d: seq<byte>, p: nat, k: nat, n: nat)
    requires p + k + n <= |d|
    ensures d[p..p + k] == d[p..][..k] && d[p + k + n..] == d[p..][k + n..]
  {
  }

  class EventStream {
    var buffer: seq<byte>
    var processed: nat

    ghost predicate Valid()
      reads this
    {
      processed <= |buffer|
    }

    ghost function Bytes(): seq<byte>
      requires Valid()
      reads this
    {
      buffer[processed..]
    }

    constructor ()
      ensures Valid() && Bytes() == []
    {
      buffer, processed := [], 0;
    }

    method Update(data: seq<byte>)
      requires Valid()
      modifies this
      ensures Valid() && Bytes() == Unread(old(Bytes()), Op.Update(data))
    {
      if processed > 0 {
        buffer := buffer[processed..];
        processed := 0;
      }
      buffer := buffer + data;
    }

    method IsEol(i: nat) returns (size: Option<nat>)
      requires i < |buffer|
      ensures size == if Eol(buffer, i) == 0 then None else Some(Eol(buffer, i))
    {
      if i + 1 < |buffer| && buffer[i] == CR && buffer[i + 1] == LF {
        size := Some(2);
      } else if buffer[i] == CR || buffer[i] == LF {
        size := Some(1);
      } else {
        size := None;
      }
    }

    method Is2Eol(i: nat) returns (size: Option<nat>)
      requires i < |buffer|
      ensures size == if Sep(buffer, i) == 0 then None else Some(Sep(buffer, i))
    {
      var size1 := IsEol(i);
      if size1.None? { return None; }
      if i + size1.value < |buffer| {
        var size2 := IsEol(i + size1.value);
        match size2
        case None =>
          if size1.value == 2 { return Some(2); }
          return None;
        case Some(s) => return Some(size1.value + s);
      } else if size1.value == 2 {
        return Some(2);
      }
      return None;
    }

    method Next() returns (event: Option<seq<byte>>)
      requires Valid()
      modifies `processed
      ensures Valid() && Bytes() == AfterNext(old(Bytes()))
      ensures event.Some? <==> NextCut(old(Bytes())).Some?
      ensures event.Some? ==> event.value == NextCut(old(Bytes())).value.event
    {
      hide Sep, First, NextCut, AfterNext;
      ghost var d := Bytes();
      NextAt(d);
      var i := processed;
      while i < |buffer|
        invariant processed == old(processed) <= i <= |buffer|
        invariant First(d, 0) == First(d, i - processed)
      {
        FirstStep(d, i - processed);
        SepSuffix(buffer, processed, i - processed);
        var size := Is2Eol(i);
        if size.Some? {
          event := Some(buffer[processed..i]);
          SlicesFrom(buffer, processed, i - processed, size.value);
          processed := i + size.value;
          return;
        }
        i := i + 1;
      }
      FirstStep(d, |d|);
      event := None;
    }

    method Flush() returns (remaining: Option<seq<byte>>)
      requires Valid()
      modifies `processed
      ensures Valid() && Bytes() == []
      ensures remaining == if old(Bytes()) == [] then None else Some(old(Bytes()))
    {
      if processed < |buffer| {
        remaining := Some(buffer[processed..]);
        processed := |buffer|;
      } else {
        remaining := None;
      }
    }
  }
}
