/**
 The Blowfish block cipher as crypt_blowfish.c runs it, for arbitrary P and S arrays.
 A context is one array of 18 + 4 * 256 words, the P array followed by the four S boxes;
 encryption reads it, and chained encryption overwrites it while reading it.
 */
module Blowfish {

  type word = bv32

  const ROUNDS := 16
  const P_WORDS := 18
  const CTX_WORDS := 1042

  datatype Pair = Pair(l: word, r: word)

  predicate Context(ps: seq<word>) { |ps| == CTX_WORDS }

  function SBox(ps: seq<word>, box: nat, index: bv8): word
    requires Context(ps) && box < 4
  {
    ps[P_WORDS + 256 * box + index as int]
  }

  /** Byte n of a word, byte 0 being the least significant. */
  function Lane(x: word, n: nat): bv8
    requires n < 4
  {
    if n == 0 then (x & 0xFF) as bv8
    else if n == 1 then ((x >> 8) & 0xFF) as bv8
    else if n == 2 then ((x >> 16) & 0xFF) as bv8
    else (x >> 24) as bv8
  }

  function Plus(x: word, y: word): word { x + y }
  function Xor(x: word, y: word): word { x ^ y }

  function Combine(s0: word, s1: word, s2: word, s3: word): word {
    Plus(Xor(Plus(s1, s0), s2), s3)
  }

  /** The round function: the part of BF_ROUND that depends on the active half only. */
  function F(ps: seq<word>, x: word): word
    requires Context(ps)
  {
    Combine(SBox(ps, 0, Lane(x, 3)), SBox(ps, 1, Lane(x, 2)), SBox(ps, 2, Lane(x, 1)), SBox(ps, 3, Lane(x, 0)))
  }

  /** The two xors a round applies to the passive half. */
  function Mix(x: word, key: word, y: word): word { x ^ key ^ y }

  /** F as a value, so that the Feistel network can be studied for any round function. */
  function RoundOf(ps: seq<word>): word -> word {
    x => if Context(ps) then F(ps, x) else 0
  }

  // ---------------------------------------------------------------------------------------
  // The Feistel network over any round function f and any 18 round keys p

  /** The halves after k half-rounds: `l` is the one the next half-round reads. */
  function After(f: word -> word, p: seq<word>, b: Pair, k: nat): Pair
    requires |p| == P_WORDS && k <= ROUNDS
  {
    if k == 0 then Pair(Mix(b.l, p[0], 0), b.r)
    else var h := After(f, p, b, k - 1); Pair(Mix(h.r, p[k], f(h.l)), h.l)
  }

  /** One block through the network, with the final swap and whitening. */
  function Block(f: word -> word, p: seq<word>, b: Pair): Pair
    requires |p| == P_WORDS
  {
    var h := After(f, p, b, ROUNDS);
    Pair(Mix(h.r, p[ROUNDS + 1], 0), h.l)
  }

  function Reverse(p: seq<word>): (q: seq<word>)
    requires |p| == P_WORDS
    ensures |q| == P_WORDS && forall i | 0 <= i < P_WORDS :: q[i] == p[P_WORDS - 1 - i]
  {
    seq(P_WORDS, i requires 0 <= i < P_WORDS => p[P_WORDS - 1 - i])
  }

  lemma MixTwice(x: word, key: word, y: word)
    ensures Mix(Mix(x, key, y), key, y) == x
  {
  }

  /** With the keys reversed, j half-rounds lead from the output back to half-round 16 - j. */
  lemma {:induction false} Unwinds(f: word -> word, p: seq<word>, b: Pair, j: nat)
    requires |p| == P_WORDS && j <= ROUNDS
    ensures var h := After(f, p, b, ROUNDS - j);
            After(f, Reverse(p), Block(f, p, b), j) == Pair(h.r, h.l)
  {
    hide Mix;
    var h := After(f, p, b, ROUNDS - j);
    if j == 0 {
      MixTwice(h.r, p[ROUNDS + 1], 0);
    } else {
      Unwinds(f, p, b, j - 1);
      MixTwice(h.r, p[ROUNDS - j + 1], f(h.l));
    }
  }

  /** Running a block through the network with the keys reversed undoes it. */
  lemma {:induction false} ReverseUndoes(f: word -> word, p: seq<word>, b: Pair)
    requires |p| == P_WORDS
    ensures Block(f, Reverse(p), Block(f, p, b)) == b
  {
    hide Mix;
    Unwinds(f, p, b, ROUNDS);
    MixTwice(b.l, p[0], 0);
  }

  lemma ReverseTwice(p: seq<word>)
    requires |p| == P_WORDS
    ensures Reverse(Reverse(p)) == p
  {
  }

  /** One-block encryption is a bijection on pairs of words. */
  lemma {:induction false} BlockIsBijection(f: word -> word, p: seq<word>, b: Pair, c: Pair)
    requires |p| == P_WORDS
    ensures Block(f, p, b) == Block(f, p, c) ==> b == c
    ensures Block(f, p, Block(f, Reverse(p), c)) == c
  {
    ReverseUndoes(f, p, b);
    ReverseUndoes(f, p, c);
    ReverseUndoes(f, Reverse(p), c);
    ReverseTwice(p);
  }

  // ---------------------------------------------------------------------------------------
  // BF_encrypt

  /** One block under a context. */
  function Encrypt(ps: seq<word>, b: Pair): Pair
    requires Context(ps)
  {
    Block(RoundOf(ps), ps[..P_WORDS], b)
  }

  /** The context with its P array reversed: the decryption context. */
  function ReverseP(ps: seq<word>): (qs: seq<word>)
    requires Context(ps)
    ensures Context(qs)
  {
    Reverse(ps[..P_WORDS]) + ps[P_WORDS..]
  }

  lemma RoundsAgree(ps: seq<word>, qs: seq<word>)
    requires Context(ps) && Context(qs) && ps[P_WORDS..] == qs[P_WORDS..]
    ensures forall x :: RoundOf(ps)(x) == RoundOf(qs)(x)
  {
  }

  lemma {:induction false} AfterExtensional(f: word -> word, g: word -> word, p: seq<word>, b: Pair, k: nat)
    requires |p| == P_WORDS && k <= ROUNDS && forall x :: f(x) == g(x)
    ensures After(f, p, b, k) == After(g, p, b, k)
  {
    hide Mix;
    if k > 0 { AfterExtensional(f, g, p, b, k - 1); }
  }

  /** BF_encrypt under the reversed P array undoes BF_encrypt: Blowfish decryption. */
  lemma DecryptUndoesEncrypt(ps: seq<word>, b: Pair)
    requires Context(ps)
    ensures Encrypt(ReverseP(ps), Encrypt(ps, b)) == b
    ensures Encrypt(ps, Encrypt(ReverseP(ps), b)) == b
  {
    hide RoundOf, After;
    var qs, p := ReverseP(ps), ps[..P_WORDS];
    var f, g := RoundOf(ps), RoundOf(qs);
    assert qs[..P_WORDS] == Reverse(p) && qs[P_WORDS..] == ps[P_WORDS..];
    RoundsAgree(ps, qs);
    AfterExtensional(f, g, Reverse(p), Encrypt(ps, b), ROUNDS);
    AfterExtensional(f, g, Reverse(p), b, ROUNDS);
    ReverseUndoes(f, p, b);
    BlockIsBijection(f, p, b, b);
  }

  /** The rounds of BF_encrypt for one block. */
  method EncryptBlock(ctx: array<word>, l: word, r: word) returns (out: Pair)
    requires Context(ctx[..])
    ensures out == Encrypt(ctx[..], Pair(l, r))
  {
    hide F, After, RoundOf, Mix;
    RoundOfIsF(ctx[..]);
    AfterStart(RoundOf(ctx[..]), ctx[..P_WORDS], Pair(l, r));
    ghost var f, p, b := RoundOf(ctx[..]), ctx[..P_WORDS], Pair(l, r);
    var L, R := Mix(l, ctx[0], 0), r;
    var i := 0;
    while i < ROUNDS
      invariant 0 <= i <= ROUNDS && i % 2 == 0
      invariant Pair(L, R) == After(f, p, b, i)
    {
      AfterStep(f, p, b, i + 1);
      AfterStep(f, p, b, i + 2);
      R := Mix(R, ctx[i + 1], F(ctx[..], L));
      assert Pair(R, L) == After(f, p, b, i + 1);
      L := Mix(L, ctx[i + 2], F(ctx[..], R));
      i := i + 2;
    }
    var t := R;
    R := L;
    L := Mix(t, ctx[ROUNDS + 1], 0);
    out := Pair(L, R);
  }

  lemma RoundOfIsF(ps: seq<word>)
    requires Context(ps)
    ensures forall x :: RoundOf(ps)(x) == F(ps, x)
  {
  }

  lemma AfterStart(f: word -> word, p: seq<word>, b: Pair)
    requires |p| == P_WORDS
    ensures After(f, p, b, 0) == Pair(Mix(b.l, p[0], 0), b.r)
  {
  }

  lemma AfterStep(f: word -> word, p: seq<word>, b: Pair, k: nat)
    requires |p| == P_WORDS && 0 < k <= ROUNDS
    ensures var h := After(f, p, b, k - 1); After(f, p, b, k) == Pair(Mix(h.r, p[k], f(h.l)), h.l)
  {
  }

  // ---------------------------------------------------------------------------------------
  // What the round function is

  /** Both are what the machine computes. */
  lemma PlusIsAdd(x: word, y: word)
    ensures Plus(x, y) == x + y
  {
  }

  lemma XorIsXor(x: word, y: word)
    ensures Xor(x, y) == x ^ y
  {
  }

  lemma PlusCommutes(x: word, y: word)
    ensures Plus(x, y) == Plus(y, x)
  {
  }

  lemma WithZero(x: word)
    ensures Plus(x, 0) == x == Plus(0, x) && Xor(x, 0) == x == Xor(0, x)
  {
  }

  /** What each of the four words does: the fourth is added last, the third is xored into the sum of the first two. */
  lemma CombineWords(a: word, b: word, c: word, d: word)
    ensures Combine(a, b, c, d) == Plus(Combine(a, b, c, 0), d)
    ensures Combine(a, b, c, 0) == Xor(Combine(a, b, 0, 0), c)
    ensures Combine(a, b, 0, 0) == Plus(a, b)
    ensures Combine(a, 0, 0, 0) == a && Combine(0, b, 0, 0) == b && Combine(0, 0, c, 0) == c && Combine(0, 0, 0, d) == d
  {
    PlusCommutes(a, b);
    WithZero(a);
    WithZero(b);
    WithZero(c);
    WithZero(d);
    WithZero(0);
    WithZero(Plus(b, a));
    WithZero(Xor(Plus(b, a), c));
    hide Plus, Xor;
  }

  /** The order of the three operations shows in small words, the wrap-around in large ones. */
  lemma CombineExamples()
    ensures Combine(1, 1, 1, 1) == 4 && Combine(1, 2, 4, 8) == 15 && Combine(2, 3, 6, 1) == 4
    ensures Combine(0xFFFF_FFFF, 2, 3, 0xFFFF_FFFF) == 1 && Combine(3, 1, 0x8000_0004, 0x8000_0005) == 5
  {
  }

  /** The bytes of a word, lane 3 the most significant. */
  lemma LaneIsByte(x: word)
    ensures Lane(x, 3) as word == x >> 24 && Lane(x, 2) as word == (x >> 16) & 0xFF
    ensures Lane(x, 1) as word == (x >> 8) & 0xFF && Lane(x, 0) as word == x & 0xFF
  {
  }

  /** The words of the S boxes that the bytes of x pick, from the most significant byte down. */
  function Picked(ps: seq<word>, x: word): (w: seq<word>)
    requires Context(ps)
    ensures |w| == 4
    ensures w[0] == ps[18 + Lane(x, 3) as int] && w[1] == ps[274 + Lane(x, 2) as int]
    ensures w[2] == ps[530 + Lane(x, 1) as int] && w[3] == ps[786 + Lane(x, 0) as int]
  {
    [SBox(ps, 0, Lane(x, 3)), SBox(ps, 1, Lane(x, 2)), SBox(ps, 2, Lane(x, 1)), SBox(ps, 3, Lane(x, 0))]
  }

  /** The round function, box by box. */
  lemma RoundFunction(ps: seq<word>, x: word)
    requires Context(ps)
    ensures var w, y := Picked(ps, x), F(ps, x);
            && (w[2] == 0 && w[3] == 0 ==> y == Plus(w[0], w[1]))
            && (w[3] == 0 ==> y == Xor(Plus(w[0], w[1]), w[2]))
            && y == Plus(Combine(w[0], w[1], w[2], 0), w[3])
            && (forall k | 0 <= k < 4 :: (forall j | 0 <= j < 4 && j != k :: w[j] == 0) ==> y == w[k])
  {
    hide Lane, SBox, Plus, Xor, Combine;
    var w := Picked(ps, x);
    CombineWords(w[0], w[1], w[2], w[3]);
    assert F(ps, x) == Combine(w[0], w[1], w[2], w[3]);
    forall k | 0 <= k < 4 && forall j | 0 <= j < 4 && j != k :: w[j] == 0 ensures F(ps, x) == w[k] {
      CombineWords(w[k], w[k], w[k], w[k]);
      assert k == 0 || k == 1 || k == 2 || k == 3;
    }
  }

  /** n words from i on, every second one, xored. */
  function EverySecond(p: seq<word>, i: nat, n: nat): word
    requires n > 0 ==> i + 2 * n - 2 < |p|
  {
    if n == 0 then 0 else Xor(EverySecond(p, i, n - 1), p[i + 2 * n - 2])
  }

  lemma MixZero(x: word, e: word, key: word)
    ensures Mix(Xor(x, e), key, 0) == Xor(x, Xor(e, key)) && Mix(x, key, 0) == Xor(x, Xor(0, key)) && Xor(x, 0) == x
  {
  }

  lemma {:induction false} AfterNoF(f: word -> word, p: seq<word>, b: Pair, j: nat)
    requires |p| == P_WORDS && 2 * j <= ROUNDS && forall x :: f(x) == 0
    ensures After(f, p, b, 2 * j) == Pair(Xor(b.l, EverySecond(p, 0, j + 1)), Xor(b.r, EverySecond(p, 1, j)))
  {
    hide After, Mix, Xor;
    if j == 0 {
      AfterStart(f, p, b);
      MixZero(b.l, 0, p[0]);
      MixZero(b.r, 0, 0);
      assert EverySecond(p, 0, 1) == Xor(EverySecond(p, 0, 0), p[0]);
    } else {
      AfterNoF(f, p, b, j - 1);
      AfterStep(f, p, b, 2 * j - 1);
      AfterStep(f, p, b, 2 * j);
      MixZero(b.r, EverySecond(p, 1, j - 1), p[2 * j - 1]);
      MixZero(b.l, EverySecond(p, 0, j), p[2 * j]);
    }
  }

  lemma NoBoxes(ps: seq<word>, x: word)
    requires Context(ps) && forall i | P_WORDS <= i < CTX_WORDS :: ps[i] == 0
    ensures F(ps, x) == 0
  {
    hide Lane, Combine;
    CombineWords(0, 0, 0, 0);
  }

  /** With empty S boxes a block is its halves exchanged, one xored with the nine odd P words, one with the even. */
  lemma BlockOfEmptyBoxes(ps: seq<word>, b: Pair)
    requires Context(ps) && forall i | P_WORDS <= i < CTX_WORDS :: ps[i] == 0
    ensures var p := ps[..P_WORDS];
            Encrypt(ps, b) == Pair(Xor(b.r, EverySecond(p, 1, 9)), Xor(b.l, EverySecond(p, 0, 9)))
  {
    hide F, After, Mix, Xor;
    var f, p := RoundOf(ps), ps[..P_WORDS];
    forall x ensures f(x) == 0 { NoBoxes(ps, x); }
    hide RoundOf;
    AfterNoF(f, p, b, 8);
    MixZero(b.r, EverySecond(p, 1, 8), p[17]);
    assert EverySecond(p, 1, 9) == Xor(EverySecond(p, 1, 8), p[17]);
  }

  /** A context of zeros but for the first words of the first and the last S box. */
  function TwoSpots(): (ps: seq<word>)
    ensures Context(ps)
  {
    seq(CTX_WORDS, i => if i == 18 || i == 786 then 1 else 0)
  }

  lemma FOfTwoSpots(x: word)
    requires x < 256
    ensures F(TwoSpots(), x) == if x == 0 then 2 else 1
  {
    hide Lane, Combine;
    SmallIndex(x);
    Ones();
  }

  lemma SmallIndex(x: word)
    requires x < 256
    ensures Lane(x, 3) == Lane(x, 2) == Lane(x, 1) == 0 && (Lane(x, 0) == 0 <==> x == 0)
  {
  }

  lemma Ones()
    ensures Combine(1, 0, 0, 1) == 2 && Combine(1, 0, 0, 0) == 1
  {
  }

  /** A known answer: sixteen rounds on the block (0, 0). */
  lemma KnownBlock()
    ensures Encrypt(TwoSpots(), Pair(0, 0)) == Pair(3, 0)
  {
    hide F, After, Mix, TwoSpots;
    var ps := TwoSpots();
    var f, p, b: Pair := RoundOf(ps), ps[..P_WORDS], Pair(0, 0);
    NoKeys();
    forall x: word | x < 256 ensures f(x) == if x == 0 then 2 else 1 { FOfTwoSpots(x); }
    hide RoundOf;
    SmallMixes();
    AfterStart(f, p, b);
    SixRounds(f, p, b, 0, Pair(0, 0));
    SixRounds(f, p, b, 6, Pair(1, 1));
    AfterStep(f, p, b, 13);
    AfterStep(f, p, b, 14);
    AfterStep(f, p, b, 15);
    AfterStep(f, p, b, 16);
  }

  lemma NoKeys()
    ensures forall i | 0 <= i < P_WORDS :: TwoSpots()[..P_WORDS][i] == 0
  {
  }

  /** Six rounds lead from (0, 0) to (1, 1), and six from there to (0, 0). */
  lemma SixRounds(f: word -> word, p: seq<word>, b: Pair, k: nat, start: Pair)
    requires |p| == P_WORDS && k + 6 <= ROUNDS && forall i | 0 <= i < P_WORDS :: p[i] == 0
    requires f(0) == 2 && f(1) == 1 && f(2) == 1 && f(3) == 1
    requires After(f, p, b, k) == start && (start == Pair(0, 0) || start == Pair(1, 1))
    ensures After(f, p, b, k + 6) == if start == Pair(0, 0) then Pair(1, 1) else Pair(0, 0)
  {
    hide After, Mix;
    SmallMixes();
    AfterStep(f, p, b, k + 1);
    AfterStep(f, p, b, k + 2);
    AfterStep(f, p, b, k + 3);
    AfterStep(f, p, b, k + 4);
    AfterStep(f, p, b, k + 5);
    AfterStep(f, p, b, k + 6);
  }

  lemma SmallMixes()
    ensures Mix(0, 0, 0) == 0 && Mix(0, 0, 1) == 1 && Mix(0, 0, 2) == 2
    ensures Mix(1, 0, 0) == 1 && Mix(1, 0, 1) == 0 && Mix(1, 0, 2) == 3
    ensures Mix(2, 0, 1) == 3 && Mix(2, 0, 2) == 0 && Mix(3, 0, 0) == 3 && Mix(3, 0, 1) == 2 && Mix(3, 0, 2) == 1
  {
  }

  // ---------------------------------------------------------------------------------------
  // Chained encryption into the context itself

  /** What BF_encrypt leaves in the context and returns when it writes the words from `at` up
      to `end` of its own context: block after block, each under the context written so far. */
  function Chain(ps: seq<word>, b: Pair, at: nat, end: nat): (r: (seq<word>, Pair))
    requires Context(ps) && at + 2 <= CTX_WORDS && end <= CTX_WORDS && (at < end ==> (end - at) % 2 == 0)
    ensures Context(r.0)
    decreases end - at
  {
    var c := Encrypt(ps, b);
    var ps' := ps[at := c.l][at + 1 := c.r];
    if at + 2 < end then Chain(ps', c, at + 2, end) else (ps', c)
  }

  /** Words in front of the target stay; the last pair written is the pair returned. */
  lemma {:induction false} ChainWrites(ps: seq<word>, b: Pair, at: nat, end: nat)
    requires Context(ps) && at + 2 <= end <= CTX_WORDS && (end - at) % 2 == 0
    ensures var (qs, c) := Chain(ps, b, at, end);
            && qs[..at] == ps[..at] && qs[end..] == ps[end..]
            && c == Pair(qs[end - 2], qs[end - 1])
    decreases end - at
  {
    var c := Encrypt(ps, b);
    var ps' := ps[at := c.l][at + 1 := c.r];
    if at + 2 < end {
      ChainWrites(ps', c, at + 2, end);
      var qs := Chain(ps, b, at, end).0;
      assert qs[..at] == qs[..at + 2][..at] == ps'[..at + 2][..at];
    }
  }

  /**
   The words at k of a chained run are the block of the pair before them, under the words written so far
   and the old ones behind them.
   */
  lemma {:induction false} ChainWords(ps: seq<word>, b: Pair, at: nat, end: nat, k: nat)
    requires Context(ps) && at + 2 <= end <= CTX_WORDS && (end - at) % 2 == 0
    requires at <= k < end && (k - at) % 2 == 0
    ensures k + 2 <= end
    ensures var qs := Chain(ps, b, at, end).0;
            Pair(qs[k], qs[k + 1])
            == Encrypt(qs[..k] + ps[k..], if k == at then b else Pair(qs[k - 2], qs[k - 1]))
    decreases end - at
  {
    hide Encrypt;
    ChainWrites(ps, b, at, end);
    var qs := Chain(ps, b, at, end).0;
    var c := Encrypt(ps, b);
    var ps' := ps[at := c.l][at + 1 := c.r];
    if at + 2 < end { ChainWrites(ps', c, at + 2, end); }
    assert qs[..at + 2] == ps'[..at + 2];
    assert qs[at] == qs[..at + 2][at] == c.l && qs[at + 1] == qs[..at + 2][at + 1] == c.r;
    if k == at {
      assert qs[..at] + ps[at..] == ps;
    } else {
      ChainWords(ps', c, at + 2, end, k);
      assert ps'[k..] == ps[k..];
    }
  }

  /** BF_encrypt with its output going to the words at..end of its own context. */
  method EncryptInPlace(ctx: array<word>, l: word, r: word, at: nat, end: nat) returns (out: Pair)
    requires Context(ctx[..]) && at + 2 <= CTX_WORDS && end <= CTX_WORDS && (at < end ==> (end - at) % 2 == 0)
    modifies ctx
    ensures Context(ctx[..]) && (ctx[..], out) == Chain(old(ctx[..]), Pair(l, r), at, end)
  {
    hide Encrypt;
    out := Pair(l, r);
    var ptr := at;
    while true
      invariant at <= ptr && ptr + 2 <= CTX_WORDS && (ptr < end ==> (end - ptr) % 2 == 0)
      invariant Context(ctx[..])
      invariant Chain(old(ctx[..]), Pair(l, r), at, end) == Chain(ctx[..], out, ptr, end)
      decreases end - ptr
    {
      ghost var before := ctx[..];
      out := EncryptBlock(ctx, out.l, out.r);
      ctx[ptr] := out.l;
      ctx[ptr + 1] := out.r;
      assert ctx[..] == before[ptr := out.l][ptr + 1 := out.r];
      ptr := ptr + 2;
      if ptr >= end { break; }
    }
  }
}
