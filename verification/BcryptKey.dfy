/**
 BF_set_key: the expanding key loader of bcrypt, with its emulation of an old sign-extension
 bug and the safety measure against collisions with buggy hashes.
 */
module BcryptKey {
  import opened BcryptCodec
  import opened Blowfish

  /** A password as a C string: NUL-terminated, no NUL inside. */
  predicate Password(z: seq<byte>) {
    CString(z) && forall i | 0 <= i < |z| - 1 :: z[i] != 0
  }

  /** Byte k of the expanded key: the password with its NUL, over and over. */
  function KeyByte(z: seq<byte>, k: nat): byte
    requires |z| >= 1
  {
    z[k % |z|]
  }

  /** `tmp <<= 8; tmp |= (unsigned char)*ptr`. */
  function Push(tmp: word, c: byte): word { (tmp << 8) | (c as word) }

  /** `tmp <<= 8; tmp |= (signed char)*ptr`: the sign bit spreads over the upper 24 bits. */
  function PushSigned(tmp: word, c: byte): word {
    (tmp << 8) | (if c & 0x80 != 0 then 0xFFFF_FF00 | (c as word) else c as word)
  }

  function Or(x: word, y: word): word { x | y }

  function Word(a: byte, b: byte, c: byte, d: byte): word {
    Push(Push(Push(Push(0, a), b), c), d)
  }

  function WordSigned(a: byte, b: byte, c: byte, d: byte): word {
    PushSigned(PushSigned(PushSigned(PushSigned(0, a), b), c), d)
  }

  /** Word i of the expanded key, computed correctly and with the bug. */
  function Correct(z: seq<byte>, i: nat): word
    requires |z| >= 1
  {
    Word(KeyByte(z, 4 * i), KeyByte(z, 4 * i + 1), KeyByte(z, 4 * i + 2), KeyByte(z, 4 * i + 3))
  }

  function Buggy(z: seq<byte>, i: nat): word
    requires |z| >= 1
  {
    WordSigned(KeyByte(z, 4 * i), KeyByte(z, 4 * i + 1), KeyByte(z, 4 * i + 2), KeyByte(z, 4 * i + 3))
  }

  /** A character other than the first of word i has its sign bit set. */
  predicate Extends(z: seq<byte>, i: nat)
    requires |z| >= 1
  {
    KeyByte(z, 4 * i + 1) >= 0x80 || KeyByte(z, 4 * i + 2) >= 0x80 || KeyByte(z, 4 * i + 3) >= 0x80
  }

  /** The condition under which the safety measure deviates from the correct algorithm. */
  ghost predicate Deviates(z: seq<byte>, flags: byte)
    requires |z| >= 1
  {
    && flags & 2 != 0
    && (exists i: nat | i < P_WORDS :: Extends(z, i))
    && (forall i: nat | i < P_WORDS :: Correct(z, i) == Buggy(z, i))
  }

  // ---------------------------------------------------------------------------------------
  // Bits

  /** The bytes of an expanded word are the four characters. */
  lemma WordBytes(a: byte, b: byte, c: byte, d: byte)
    ensures var w := Word(a, b, c, d); Lane(w, 3) == a && Lane(w, 2) == b && Lane(w, 1) == c && Lane(w, 0) == d
  {
  }

  /** A sign extension overwrites everything above it. */
  lemma ExtensionOverwrites(tmp: word, c: byte)
    ensures c >= 0x80 ==> PushSigned(tmp, c) == 0xFFFF_FF00 | (c as word)
    ensures c < 0x80 ==> PushSigned(tmp, c) == Push(tmp, c)
  {
  }

  // When shifted words agree: only what was not shifted out counts.

  lemma ExtendedFirst(a: byte, x: byte, y: byte, w: byte)
    ensures Push(Push(Push(0xFFFF_FF00 | (a as word), x), y), w) == Push(Push(Push(Push(0, a), x), y), w)
  {
  }

  lemma ExtendedSecond(t: word, x: byte, y: byte, w: byte)
    ensures Push(Push(Push(t, x), y), w) == Push(Push(0xFFFF_FF00 | (x as word), y), w) <==> t & 0xFF == 0xFF
  {
  }

  lemma ExtendedThird(t: word, x: byte, y: byte, w: byte)
    ensures Push(Push(Push(t, x), y), w) == Push(0xFFFF_FF00 | (y as word), w) <==> t & 0xFF == 0xFF && x == 0xFF
  {
  }

  lemma ExtendedFourth(t: word, x: byte, y: byte, w: byte)
    ensures Push(Push(Push(t, x), y), w) == 0xFFFF_FF00 | (w as word) <==> t & 0xFF == 0xFF && x == 0xFF && y == 0xFF
  {
  }

  lemma FirstCharacter(a: byte)
    ensures Push(0, a) & 0xFF == 0xFF <==> a == 0xFF
  {
  }

  /** Both expansions of a word agree exactly if every character with its sign bit set is the
      first one or follows only 0xff characters. */
  lemma {:induction false} AgreeIff(a: byte, b: byte, c: byte, d: byte)
    ensures Word(a, b, c, d) == WordSigned(a, b, c, d)
       <==> && (b >= 0x80 ==> a == 0xFF)
            && (c >= 0x80 ==> a == 0xFF && b == 0xFF)
            && (d >= 0x80 ==> a == 0xFF && b == 0xFF && c == 0xFF)
  {
    hide Push, PushSigned;
    FirstCharacter(a);
    var s1 := PushSigned(0, a);
    var s2 := PushSigned(s1, b);
    ExtensionOverwrites(s1, b);
    ExtensionOverwrites(s2, c);
    ExtensionOverwrites(PushSigned(s2, c), d);
    var t := Push(0, a);
    ExtensionOverwrites(0, a);
    ExtendedFirst(a, b, c, d);
    ExtendedSecond(t, b, c, d);
    ExtendedThird(t, b, c, d);
    ExtendedFourth(t, b, c, d);
  }

  lemma SignSeen(tmp: word, c: byte)
    ensures PushSigned(tmp, c) & 0x80 == if c >= 0x80 then 0x80 else 0
  {
  }

  /** The branch-free arithmetic at the end of BF_set_key. */
  lemma SafetyBits(sign: word, diff: word, flags: byte)
    requires sign == 0 || sign == 0x80
    ensures var d := ((diff | (diff >> 16)) & 0xFFFF) + 0xFFFF;
            (sign << 9) & (!d & (((flags as word) & 2) << 15))
            == if flags & 2 != 0 && sign != 0 && diff == 0 then 0x10000 else 0
  {
  }

  lemma SignGrows(x: word, y: word)
    requires (x == 0 || x == 0x80) && (y == 0 || y == 0x80)
    ensures Or(x, y) == if x != 0 || y != 0 then 0x80 else 0
  {
  }

  lemma XorZero(x: word, y: word)
    ensures Xor(x, y) == 0 <==> x == y
  {
    assert Xor(Xor(x, y), y) == x;
    assert Xor(0, y) == y;
  }

  lemma OrZero(x: word, y: word)
    ensures Or(x, y) == 0 <==> x == 0 && y == 0
  {
  }

  lemma DiffGrows(diff: word, x: word, y: word)
    ensures Or(diff, Xor(x, y)) == 0 <==> diff == 0 && x == y
  {
    hide Or, Xor;
    XorZero(x, y);
    OrZero(diff, Xor(x, y));
  }

  // ---------------------------------------------------------------------------------------
  // What the loader promises

  lemma {:induction false} WrapStep(n: nat, k: nat)
    requires n >= 1
    ensures (k + 1) % n == if k % n == n - 1 then 0 else k % n + 1
  {
    var q, r := k / n, k % n;
    var q', r' := (k + 1) / n, (k + 1) % n;
    assert n * q + r + 1 == n * q' + r';
    if r == n - 1 {
      assert n * q + r + 1 == n * (q + 1) + 0;
      QuotientUnique(n, q + 1, 0, q', r');
    } else {
      QuotientUnique(n, q, r + 1, q', r');
    }
  }

  lemma {:induction false} QuotientUnique(n: nat, q: nat, r: nat, q': nat, r': nat)
    requires r < n && r' < n && n * q + r == n * q' + r'
    ensures q == q' && r == r'
  {
    if q < q' { MulGap(n, q, q'); }
    if q' < q { MulGap(n, q', q); }
  }

  lemma {:induction false} MulGap(n: nat, q: nat, q': nat)
    requires q < q'
    ensures n * q' >= n * q + n
    decreases q'
  {
    assert n * q' == n * (q' - 1) + n;
    if q < q' - 1 { MulGap(n, q, q' - 1); }
  }

  /** Key expansion reads the password and its NUL cyclically: byte j of word i, counted from the
      most significant, is byte (4i + j) mod (length + 1). */
  lemma ExpandedBytes(z: seq<byte>, i: nat, j: nat)
    requires Password(z) && j < 4
    ensures Lane(Correct(z, i), 3 - j) == z[(4 * i + j) % |z|]
  {
    WordBytes(KeyByte(z, 4 * i), KeyByte(z, 4 * i + 1), KeyByte(z, 4 * i + 2), KeyByte(z, 4 * i + 3));
  }

  /** The safety measure concerns only passwords with a 0xff character. */
  lemma DeviatesNeedsFF(z: seq<byte>, flags: byte)
    requires Password(z) && Deviates(z, flags)
    ensures 0xFF in z[..|z| - 1]
  {
    var i: nat :| i < P_WORDS && Extends(z, i);
    assert Correct(z, i) == Buggy(z, i);
    AgreeIff(KeyByte(z, 4 * i), KeyByte(z, 4 * i + 1), KeyByte(z, 4 * i + 2), KeyByte(z, 4 * i + 3));
    var k := 4 * i % |z|;
    assert z[k] == 0xFF && k < |z| - 1;
    assert z[..|z| - 1][k] == 0xFF;
  }

  /** The expanded key, with or without the bug. */
  function Expanded(z: seq<byte>, flags: byte): (e: seq<word>)
    requires |z| >= 1
    ensures |e| == P_WORDS
  {
    seq(P_WORDS, i requires 0 <= i < P_WORDS => if flags & 1 != 0 then Buggy(z, i) else Correct(z, i))
  }

  /** The initial P array, keyed, with bit 16 of its first word flipped if the loader deviates. */
  ghost function Initial(z: seq<byte>, initP: seq<word>, flags: byte): (p: seq<word>)
    requires |z| >= 1 && |initP| == P_WORDS
    ensures |p| == P_WORDS
  {
    var p := seq(P_WORDS, i requires 0 <= i < P_WORDS => Xor(initP[i], Expanded(z, flags)[i]));
    p[0 := Xor(p[0], if Deviates(z, flags) then 0x10000 else 0)]
  }

  lemma FlipChanges(x: word)
    ensures Xor(x, 0x10000) != x && Xor(x, 0) == x && Xor(Xor(x, 0x10000), x) == 0x10000
  {
  }

  /** The keyed initial state differs from the plain one in exactly bit 16 of word 0, exactly if
      the loader deviates; and a deviating pair of arrays is one that no password gives without
      deviating, whether computed correctly or with the bug. */
  lemma {:induction false} DeviationUnreachable(z: seq<byte>, flags: byte, y: seq<byte>, other: byte, initP: seq<word>)
    requires Password(z) && Password(y) && |initP| == P_WORDS
    ensures var plain := Xor(initP[0], Expanded(z, flags)[0]); var p0 := Initial(z, initP, flags)[0];
            && (Deviates(z, flags) <==> p0 != plain)
            && (Deviates(z, flags) ==> Xor(p0, plain) == 0x10000)
    ensures Deviates(z, flags) && !Deviates(y, other)
        ==> !(Expanded(z, flags) == Expanded(y, other) && Initial(z, initP, flags) == Initial(y, initP, other))
  {
    hide Xor, Deviates;
    FlipChanges(Xor(initP[0], Expanded(z, flags)[0]));
    FlipChanges(Xor(initP[0], Expanded(y, other)[0]));
  }

  // ---------------------------------------------------------------------------------------
  // What the safety measure is for: no correctly computed state is also a buggy one

  lemma PushedLanes(t: word, x: byte)
    ensures var w := Push(t, x);
            Lane(w, 0) == x && Lane(w, 1) == Lane(t, 0) && Lane(w, 2) == Lane(t, 1) && Lane(w, 3) == Lane(t, 2)
  {
  }

  lemma ExtendedLanes(x: byte)
    ensures var w := 0xFFFF_FF00 | (x as word);
            Lane(w, 0) == x && Lane(w, 1) == 0xFF && Lane(w, 2) == 0xFF && Lane(w, 3) == 0xFF
  {
  }

  /** The bytes of a word computed with the bug: 0xff in front of the last character extended. */
  lemma {:induction false} SignedBytes(a: byte, b: byte, c: byte, d: byte)
    ensures var w := WordSigned(a, b, c, d);
            && Lane(w, 0) == d
            && Lane(w, 1) == (if d >= 0x80 then 0xFF else c)
            && Lane(w, 2) == (if d >= 0x80 || c >= 0x80 then 0xFF else b)
            && Lane(w, 3) == (if d >= 0x80 || c >= 0x80 || b >= 0x80 then 0xFF else a)
  {
    hide Push, PushSigned, Lane;
    var s1 := PushSigned(0, a);
    var s2 := PushSigned(s1, b);
    var s3 := PushSigned(s2, c);
    ExtensionOverwrites(0, a);
    ExtensionOverwrites(s1, b);
    ExtensionOverwrites(s2, c);
    ExtensionOverwrites(s3, d);
    ExtendedLanes(a);
    ExtendedLanes(b);
    ExtendedLanes(c);
    ExtendedLanes(d);
    PushedLanes(0, a);
    PushedLanes(s1, b);
    PushedLanes(s2, c);
    PushedLanes(s3, d);
  }

  /** A correctly computed word that is also a buggy one agrees with its own buggy form. */
  lemma {:induction false} BuggyImage(z: seq<byte>, y: seq<byte>, i: nat)
    requires Password(z) && Password(y) && Correct(z, i) == Buggy(y, i)
    ensures Correct(z, i) == Buggy(z, i)
    ensures Extends(z, i) == Extends(y, i)
    ensures !Extends(y, i) ==> Buggy(y, i) == Correct(y, i)
  {
    hide Word, WordSigned, KeyByte, Lane;
    var a, b, c, d := KeyByte(z, 4 * i), KeyByte(z, 4 * i + 1), KeyByte(z, 4 * i + 2), KeyByte(z, 4 * i + 3);
    var a', b', c', d' := KeyByte(y, 4 * i), KeyByte(y, 4 * i + 1), KeyByte(y, 4 * i + 2), KeyByte(y, 4 * i + 3);
    WordBytes(a, b, c, d);
    SignedBytes(a', b', c', d');
    AgreeIff(a, b, c, d);
    AgreeIff(a', b', c', d');
  }

  lemma SameBytes(z: seq<byte>, y: seq<byte>, i: nat)
    requires Password(z) && Password(y) && Correct(z, i) == Correct(y, i)
    ensures Extends(z, i) == Extends(y, i)
    ensures !Extends(y, i) ==> Buggy(y, i) == Correct(y, i)
  {
    hide Word, WordSigned, KeyByte, Lane;
    var a, b, c, d := KeyByte(z, 4 * i), KeyByte(z, 4 * i + 1), KeyByte(z, 4 * i + 2), KeyByte(z, 4 * i + 3);
    var a', b', c', d' := KeyByte(y, 4 * i), KeyByte(y, 4 * i + 1), KeyByte(y, 4 * i + 2), KeyByte(y, 4 * i + 3);
    WordBytes(a, b, c, d);
    WordBytes(a', b', c', d');
    AgreeIff(a', b', c', d');
  }

  /** The loader gives the same state for z and y. */
  ghost predicate SameState(z: seq<byte>, flags: byte, y: seq<byte>, other: byte, initP: seq<word>)
    requires |z| >= 1 && |y| >= 1 && |initP| == P_WORDS
  {
    Expanded(z, flags) == Expanded(y, other) && Initial(z, initP, flags) == Initial(y, initP, other)
  }

  lemma SameExpansion(z: seq<byte>, flags: byte, y: seq<byte>, other: byte)
    requires |z| >= 1 && |y| >= 1 && flags & 1 == 0 && other & 1 != 0
    ensures Expanded(z, flags) == Expanded(y, other) <==> forall i: nat | i < P_WORDS :: Correct(z, i) == Buggy(y, i)
  {
    hide Correct, Buggy;
    if Expanded(z, flags) == Expanded(y, other) {
      forall i: nat | i < P_WORDS ensures Correct(z, i) == Buggy(y, i) {
        assert Expanded(z, flags)[i] == Expanded(y, other)[i];
      }
    }
  }

  /** Equal expansions give equal states exactly if the safety measure does not apply. */
  lemma SameUnlessDeviates(z: seq<byte>, flags: byte, y: seq<byte>, other: byte, initP: seq<word>)
    requires Password(z) && Password(y) && |initP| == P_WORDS && other & 2 == 0
    requires Expanded(z, flags) == Expanded(y, other)
    ensures SameState(z, flags, y, other, initP) <==> !Deviates(z, flags)
  {
    hide Xor, Expanded;
    assert !Deviates(y, other);
    hide Deviates;
    FlipChanges(Xor(initP[0], Expanded(z, flags)[0]));
    var p, q := Initial(z, initP, flags), Initial(y, initP, other);
    assert forall k | 0 < k < P_WORDS :: p[k] == q[k];
    if Deviates(z, flags) { assert p[0] != q[0]; } else { assert p[0] == q[0] && p == q; }
  }

  /**
   A password hashed correctly, with the safety measure, and one hashed with the bug end in the same
   state exactly if they expand to the same words and hold no character, other than the first of a
   word, with its sign bit set: the words that the bug does not touch.
   */
  lemma {:induction false} NoBuggyCollision(z: seq<byte>, flags: byte, y: seq<byte>, other: byte, initP: seq<word>)
    requires Password(z) && Password(y) && |initP| == P_WORDS
    requires flags & 1 == 0 && flags & 2 != 0 && other & 1 != 0 && other & 2 == 0
    ensures SameState(z, flags, y, other, initP)
            <==> forall i: nat | i < P_WORDS :: Correct(z, i) == Correct(y, i) && !Extends(y, i)
  {
    hide Correct, Buggy, Extends, Expanded, SameState;
    SameExpansion(z, flags, y, other);
    forall i: nat | i < P_WORDS && Correct(z, i) == Buggy(y, i)
      ensures Correct(z, i) == Buggy(z, i) && Extends(z, i) == Extends(y, i)
      ensures !Extends(y, i) ==> Buggy(y, i) == Correct(y, i)
    {
      BuggyImage(z, y, i);
    }
    forall i: nat | i < P_WORDS && Correct(z, i) == Correct(y, i)
      ensures Extends(z, i) == Extends(y, i) && (!Extends(y, i) ==> Buggy(y, i) == Correct(y, i))
    {
      SameBytes(z, y, i);
    }
    if Expanded(z, flags) == Expanded(y, other) {
      SameUnlessDeviates(z, flags, y, other, initP);
    } else {
      assert !SameState(z, flags, y, other, initP) by { NotSame(z, flags, y, other, initP); }
    }
  }

  lemma NotSame(z: seq<byte>, flags: byte, y: seq<byte>, other: byte, initP: seq<word>)
    requires |z| >= 1 && |y| >= 1 && |initP| == P_WORDS && Expanded(z, flags) != Expanded(y, other)
    ensures !SameState(z, flags, y, other, initP)
  {
  }

  /** Without the safety measure (flags 4) there is such a collision: 0xff 0xff 0xa3, and 0xa3 with the bug. */
  lemma CollisionWithoutSafety(initP: seq<word>)
    requires |initP| == P_WORDS
    ensures var z: seq<byte>, y: seq<byte> := [0xFF, 0xFF, 0xA3, 0], [0xA3, 0];
            && Password(z) && Password(y) && Correct(z, 0) != Correct(y, 0)
            && SameState(z, 4, y, 1, initP) && !SameState(z, 2, y, 1, initP)
  {
    var z: seq<byte>, y: seq<byte> := [0xFF, 0xFF, 0xA3, 0], [0xA3, 0];
    hide Word, WordSigned, Xor;
    ExampleWords();
    forall i: nat ensures Correct(z, i) == Word(0xFF, 0xFF, 0xA3, 0) && Buggy(y, i) == WordSigned(0xA3, 0, 0xA3, 0)
      ensures Correct(y, i) == Word(0xA3, 0, 0xA3, 0)
    {
      Cyclic(z, y, i);
    }
    SameExpansion(z, 4, y, 1);
    SameUnlessDeviates(z, 4, y, 1, initP);
    NoBuggyCollision(z, 2, y, 1, initP);
  }

  lemma Cyclic(z: seq<byte>, y: seq<byte>, i: nat)
    requires |z| == 4 && |y| == 2
    ensures Correct(z, i) == Word(z[0], z[1], z[2], z[3])
    ensures Correct(y, i) == Word(y[0], y[1], y[0], y[1]) && Buggy(y, i) == WordSigned(y[0], y[1], y[0], y[1])
  {
    hide Word, WordSigned;
  }

  lemma ExampleWords()
    ensures Word(0xFF, 0xFF, 0xA3, 0) == WordSigned(0xA3, 0, 0xA3, 0) != Word(0xA3, 0, 0xA3, 0)
  {
  }

  /** When the loader deviates, character by character: the flag is set, some character with its
      sign bit set is not the first of its word, and each such character follows only 0xff's. */
  lemma {:induction false} DeviatesIff(z: seq<byte>, flags: byte)
    requires Password(z)
    ensures Deviates(z, flags) <==>
      && flags & 2 != 0
      && (exists i: nat | i < P_WORDS :: Extends(z, i))
      && (forall i: nat | i < P_WORDS :: OnlyAfterFF(z, i))
  {
    hide Correct, Buggy, Extends;
    forall i: nat ensures Correct(z, i) == Buggy(z, i) <==> OnlyAfterFF(z, i) {
      WordsAgreeIff(z, i);
    }
  }

  predicate OnlyAfterFF(z: seq<byte>, i: nat)
    requires |z| >= 1
  {
    var a, b, c, d := KeyByte(z, 4 * i), KeyByte(z, 4 * i + 1), KeyByte(z, 4 * i + 2), KeyByte(z, 4 * i + 3);
    && (b >= 0x80 ==> a == 0xFF)
    && (c >= 0x80 ==> a == 0xFF && b == 0xFF)
    && (d >= 0x80 ==> a == 0xFF && b == 0xFF && c == 0xFF)
  }

  lemma {:induction false} WordsAgreeIff(z: seq<byte>, i: nat)
    requires Password(z)
    ensures Correct(z, i) == Buggy(z, i) <==> OnlyAfterFF(z, i)
  {
    AgreeIff(KeyByte(z, 4 * i), KeyByte(z, 4 * i + 1), KeyByte(z, 4 * i + 2), KeyByte(z, 4 * i + 3));
  }

  /** BF_set_key. `initP` is the P array of the initial state. */
  method BFSetKey(z: seq<byte>, initP: seq<word>, flags: byte) returns (expanded: seq<word>, initial: seq<word>)
    requires Password(z) && |initP| == P_WORDS
    ensures expanded == Expanded(z, flags)
    ensures initial == Initial(z, initP, flags)
  {
    hide Correct, Buggy, Extends, Xor, Or;
    var bug := flags & 1;
    var safety := ((flags as word) & 2) << 15;
    var ptr := 0;
    var sign: word, diff: word := 0, 0;
    expanded, initial := [], [];
    var i := 0;
    while i < P_WORDS
      invariant 0 <= i <= P_WORDS && ptr == (4 * i) % |z|
      invariant |expanded| == i && |initial| == i
      invariant forall k | 0 <= k < i :: expanded[k] == if bug != 0 then Buggy(z, k) else Correct(z, k)
      invariant forall k | 0 <= k < i :: initial[k] == Xor(initP[k], expanded[k])
      invariant sign == if exists k: nat | k < i :: Extends(z, k) then 0x80 else 0
      invariant diff == 0 <==> forall k: nat | k < i :: Correct(z, k) == Buggy(z, k)
    {
      var tmp0, tmp1, s;
      tmp0, tmp1, s, ptr := LoadWord(z, ptr, i);
      ghost var sign0, diff0 := sign, diff;
      sign := Or(sign, s);
      diff := Or(diff, Xor(tmp0, tmp1));
      DiffGrows(diff0, tmp0, tmp1);
      SignGrows(sign0, s);
      expanded := expanded + [if bug != 0 then tmp1 else tmp0];
      initial := initial + [Xor(initP[i], expanded[i])];
      i := i + 1;
    }
    var mask := SafetyMask(sign, diff, safety, flags);
    initial := initial[0 := Xor(initial[0], mask)];
  }

  /** The branch-free end of BF_set_key: bit 16 exactly if the safety measure is wanted and needed. */
  method SafetyMask(sign0: word, diff0: word, safety: word, ghost flags: byte) returns (sign: word)
    requires sign0 == 0 || sign0 == 0x80
    requires safety == ((flags as word) & 2) << 15
    ensures sign == if flags & 2 != 0 && sign0 != 0 && diff0 == 0 then 0x10000 else 0
  {
    SafetyBits(sign0, diff0, flags);
    var diff := diff0 | (diff0 >> 16);
    diff := diff & 0xFFFF;
    diff := diff + 0xFFFF;
    sign := sign0 << 9;
    sign := sign & (!diff & safety);
  }

  /** The inner loop of BF_set_key: one word, both ways, and whether a sign bit was extended. */
  method LoadWord(z: seq<byte>, start: nat, ghost i: nat)
    returns (tmp0: word, tmp1: word, sign: word, ptr: nat)
    requires Password(z) && start == (4 * i) % |z|
    ensures tmp0 == Correct(z, i) && tmp1 == Buggy(z, i)
    ensures sign == if Extends(z, i) then 0x80 else 0
    ensures ptr == (4 * (i + 1)) % |z|
  {
    hide Push, PushSigned;
    ptr := start;
    tmp0, tmp1, sign := 0, 0, 0;
    var j := 0;
    while j < 4
      invariant 0 <= j <= 4 && ptr == (4 * i + j) % |z|
      invariant tmp0 == Prefix(z, i, j) && tmp1 == PrefixSigned(z, i, j)
      invariant sign == if ExtendsWithin(z, i, j) then 0x80 else 0
    {
      var c := z[ptr];
      SignSeen(tmp1, c);
      WrapStep(|z|, 4 * i + j);
      tmp0 := Push(tmp0, c);
      tmp1 := PushSigned(tmp1, c);
      if j != 0 { sign := sign | (tmp1 & 0x80); }
      if c == 0 { ptr := 0; } else { ptr := ptr + 1; }
      j := j + 1;
    }
    PrefixesAreWords(z, i);
  }

  function Prefix(z: seq<byte>, i: nat, j: nat): word
    requires |z| >= 1
  {
    if j == 0 then 0 else Push(Prefix(z, i, j - 1), KeyByte(z, 4 * i + j - 1))
  }

  function PrefixSigned(z: seq<byte>, i: nat, j: nat): word
    requires |z| >= 1
  {
    if j == 0 then 0 else PushSigned(PrefixSigned(z, i, j - 1), KeyByte(z, 4 * i + j - 1))
  }

  predicate ExtendsWithin(z: seq<byte>, i: nat, j: nat)
    requires |z| >= 1
  {
    j >= 2 && (ExtendsWithin(z, i, j - 1) || KeyByte(z, 4 * i + j - 1) >= 0x80)
  }

  lemma PrefixesAreWords(z: seq<byte>, i: nat)
    requires |z| >= 1
    ensures Prefix(z, i, 4) == Correct(z, i) && PrefixSigned(z, i, 4) == Buggy(z, i)
    ensures ExtendsWithin(z, i, 4) == Extends(z, i)
  {
    hide Push, PushSigned, KeyByte;
    assert Prefix(z, i, 1) == Push(0, KeyByte(z, 4 * i)) && PrefixSigned(z, i, 1) == PushSigned(0, KeyByte(z, 4 * i));
    assert Prefix(z, i, 2) == Push(Prefix(z, i, 1), KeyByte(z, 4 * i + 1));
    assert PrefixSigned(z, i, 2) == PushSigned(PrefixSigned(z, i, 1), KeyByte(z, 4 * i + 1));
    assert ExtendsWithin(z, i, 2) == (KeyByte(z, 4 * i + 1) >= 0x80);
  }
}
