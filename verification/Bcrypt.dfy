/**
 BF_crypt: the bcrypt hash as a C string, from a password and a setting such as an earlier hash.
 The initial Blowfish state and the encrypted text are parameters; nothing depends on them.
 */
module Bcrypt {
  import opened BcryptCodec
  import opened Blowfish
  import opened Wrappers
  import opened BcryptKey

  const SALT_AT := 7
  const SALT_TEXT := 22
  const SALT_BYTES := 16
  const HASH_BYTES := 23

  /** The constants of the program: the initial state and "OrpheanBeholderScryDoubt" as words. */
  datatype Tables = Tables(init: seq<word>, magic: seq<word>) {
    predicate Ok() { Context(init) && |magic| == 6 }
  }

  // ---------------------------------------------------------------------------------------
  // Words in memory

  function BigEndian(a: byte, b: byte, c: byte, d: byte): word { Word(a, b, c, d) }

  /** A word as the machine reads it from four bytes. */
  function InMemory(little: bool, a: byte, b: byte, c: byte, d: byte): word {
    if little then BigEndian(d, c, b, a) else BigEndian(a, b, c, d)
  }

  /** The assignments of BF_swap to one word. */
  function SwapWord(x: word): word {
    var tmp := (x << 16) | (x >> 16);
    ((tmp & 0x00FF_00FF) << 8) | ((tmp >> 8) & 0x00FF_00FF)
  }

  lemma SwapReverses(a: byte, b: byte, c: byte, d: byte)
    ensures SwapWord(BigEndian(a, b, c, d)) == BigEndian(d, c, b, a)
  {
  }

  /** The words of a byte buffer, most significant byte first. */
  function Words(b: seq<byte>): (w: seq<word>)
    requires |b| % 4 == 0
    ensures |w| == |b| / 4
  {
    seq(|b| / 4, i requires 0 <= i < |b| / 4 => BigEndian(b[4 * i], b[4 * i + 1], b[4 * i + 2], b[4 * i + 3]))
  }

  function MemoryWords(little: bool, b: seq<byte>): (w: seq<word>)
    requires |b| % 4 == 0
    ensures |w| == |b| / 4
  {
    seq(|b| / 4, i requires 0 <= i < |b| / 4 => InMemory(little, b[4 * i], b[4 * i + 1], b[4 * i + 2], b[4 * i + 3]))
  }

  /** The bytes of some words, most significant byte first. */
  function Bytes(w: seq<word>): (b: seq<byte>)
    ensures |b| == 4 * |w|
  {
    seq(4 * |w|, i requires 0 <= i < 4 * |w| => Lane(w[i / 4], 3 - i % 4))
  }

  /** Byte 4i + j of a buffer is byte j of word i, counted from the most significant one, both ways. */
  lemma BytesOfWords(b: seq<byte>, w: seq<word>, i: nat, j: nat)
    requires j < 4
    ensures |b| % 4 == 0 && 4 * i + j < |b| ==> Lane(Words(b)[i], 3 - j) == b[4 * i + j]
    ensures i < |w| ==> Bytes(w)[4 * i + j] == Lane(w[i], 3 - j)
  {
    hide Lane, Word;
    if |b| % 4 == 0 && 4 * i + j < |b| { WordBytes(b[4 * i], b[4 * i + 1], b[4 * i + 2], b[4 * i + 3]); }
    assert (4 * i + j) / 4 == i && (4 * i + j) % 4 == j;
  }

  /** A byte of a word as it lies in memory. */
  function MemoryByte(little: bool, x: word, n: nat): byte
    requires n < 4
  {
    Lane(x, if little then n else 3 - n)
  }

  /** The bytes of some words as they lie in memory. */
  function MemoryBytes(little: bool, w: seq<word>): (b: seq<byte>)
    ensures |b| == 4 * |w|
  {
    seq(4 * |w|, i requires 0 <= i < 4 * |w| => MemoryByte(little, w[i / 4], i % 4))
  }

  lemma WordInMemory(little: bool, a: byte, b: byte, c: byte, d: byte)
    ensures var x := InMemory(little, a, b, c, d);
            && MemoryByte(little, x, 0) == a && MemoryByte(little, x, 1) == b
            && MemoryByte(little, x, 2) == c && MemoryByte(little, x, 3) == d
  {
    hide Word, Lane;
    if little { WordBytes(d, c, b, a); } else { WordBytes(a, b, c, d); }
  }

  /** Reading a byte buffer as words and the words as bytes again gives the buffer. */
  lemma {:induction false} MemoryKeepsBytes(little: bool, b: seq<byte>)
    requires |b| % 4 == 0
    ensures MemoryBytes(little, MemoryWords(little, b)) == b
  {
    hide MemoryByte, InMemory;
    var w := MemoryWords(little, b);
    forall i | 0 <= i < |b| ensures MemoryBytes(little, w)[i] == b[i] {
      var k := i / 4;
      WordInMemory(little, b[4 * k], b[4 * k + 1], b[4 * k + 2], b[4 * k + 3]);
      assert i == 4 * k + i % 4;
    }
  }

  lemma SwappedByte(x: word, n: nat)
    requires n < 4
    ensures MemoryByte(true, SwapWord(x), n) == Lane(x, 3 - n)
  {
  }

  /** BF_swap: on a little-endian machine, reverses the bytes of each word in place. */
  method BFSwap(little: bool, x: array<word>)
    requires x.Length >= 1
    modifies x
    ensures forall i | 0 <= i < x.Length :: x[i] == if little then SwapWord(old(x[i])) else old(x[i])
  {
    if little {
      var i := 0;
      while true
        invariant 0 <= i < x.Length
        invariant forall k | 0 <= k < i :: x[k] == SwapWord(old(x[k]))
        invariant forall k | i <= k < x.Length :: x[k] == old(x[k])
        decreases x.Length - i
      {
        x[i] := SwapWord(x[i]);
        i := i + 1;
        if i >= x.Length { break; }
      }
    }
  }

  // ---------------------------------------------------------------------------------------
  // The setting

  function Pow2(n: nat): nat { if n == 0 then 1 else 2 * Pow2(n - 1) }

  /** The table flags_by_subtype, for subtype letters a to z. */
  function FlagsBySubtype(i: byte): byte {
    if i == 0 then 2 else if i == 1 then 4 else if i == 23 then 1 else if i == 24 then 4 else 0
  }

  datatype Header = Header(flags: byte, count: nat)

  /** The checks on "$2?$NN$", in order, each reading one more character: a short string fails
      at its NUL. Byte subtraction wraps, so one unsigned comparison checks both ends. */
  function ParseHeader(z: seq<byte>): (h: Option<Header>)
    requires CString(z)
    ensures h.Some? ==> SALT_AT < |z|
  {
    if z[0] != 0x24 || z[1] != 0x32 || z[2] - 0x61 > 25 || FlagsBySubtype(z[2] - 0x61) == 0 || z[3] != 0x24
       || z[4] - 0x30 > 1 || z[5] - 0x30 > 9 || z[6] != 0x24 then None
    else
      Some(Header(FlagsBySubtype(z[2] - 0x61), Pow2((z[4] - 0x30) as nat * 10 + (z[5] - 0x30) as nat)))
  }

  const POWERS := [
    1, 2, 4, 8, 16, 32, 64, 128, 256, 512,
    1024, 2048, 4096, 8192, 16384, 32768, 65536, 131072, 262144, 524288]

  lemma PowersOfTwo(n: nat)
    requires n < 20
    ensures Pow2(n) == POWERS[n]
  {
    if n > 0 { PowersOfTwo(n - 1); }
  }

  /** "$2a$" to "$2y$" with two digits up to 19 and "$"; what each letter stands for, and 2 to the power of the cost. */
  lemma HeaderIff(z: seq<byte>)
    requires CString(z)
    ensures ParseHeader(z).Some?
            <==> && |z| > 7
                 && z[0] == 0x24 && z[1] == 0x32 && z[2] in {0x61, 0x62, 0x78, 0x79} && z[3] == 0x24
                 && 0x30 <= z[4] <= 0x31 && 0x30 <= z[5] <= 0x39 && z[6] == 0x24
    ensures ParseHeader(z).Some? ==>
              var h := ParseHeader(z).value;
              && h.flags == (match z[2] case 0x61 => 2 case 0x78 => 1 case _ => 4)
              && (z[4] == 0x30 || z[4] == 0x31) && (z[5] - 0x30) as nat < 10
              && h.count == POWERS[(if z[4] == 0x30 then 0 else 10) + (z[5] - 0x30) as nat]
  {
    if ParseHeader(z).Some? {
      hide Pow2;
      PowersOfTwo((if z[4] == 0x30 then 0 else 10) + (z[5] - 0x30) as nat);
    }
  }

  // ---------------------------------------------------------------------------------------
  // The hash

  function XorPair(b: Pair, x: word, y: word): Pair { Pair(Xor(b.l, x), Xor(b.r, y)) }

  /** The salted fill of P and S: 521 chained blocks, salted alternately with both salt halves. */
  function SaltFill(ps: seq<word>, salt: seq<word>, b: Pair, k: nat): (qs: seq<word>)
    requires Context(ps) && |salt| == 4 && k <= CTX_WORDS / 2
    ensures Context(qs)
    decreases CTX_WORDS / 2 - k
  {
    if k == CTX_WORDS / 2 then ps
    else
      var h := 2 * (k % 2);
      var c := Encrypt(ps, XorPair(b, salt[h], salt[h + 1]));
      SaltFill(ps[2 * k := c.l][2 * k + 1 := c.r], salt, c, k + 1)
  }

  /**
   Words 2k and 2k + 1 of the filled context are the block of the pair before them, xored with one half of
   the salt, the first half for even k, under the words written so far and the old ones behind them.
   */
  lemma {:induction false} SaltFillWords(ps: seq<word>, salt: seq<word>, b: Pair, start: nat, k: nat)
    requires Context(ps) && |salt| == 4 && start <= k < CTX_WORDS / 2
    ensures var qs := SaltFill(ps, salt, b, start);
            var prev := if k == start then b else Pair(qs[2 * k - 2], qs[2 * k - 1]);
            && qs[..2 * start] == ps[..2 * start]
            && Pair(qs[2 * k], qs[2 * k + 1])
               == Encrypt(qs[..2 * k] + ps[2 * k..],
                          if k % 2 == 0 then Pair(Xor(prev.l, salt[0]), Xor(prev.r, salt[1]))
                          else Pair(Xor(prev.l, salt[2]), Xor(prev.r, salt[3])))
    decreases k - start
  {
    hide Encrypt, Xor, SaltFill;
    var qs := SaltFill(ps, salt, b, start);
    var c, ps' := SaltFillStep(ps, salt, b, start);
    SaltFillKeeps(ps', salt, c, start + 1);
    FirstWords(qs, ps', 2 * start, ps);
    if k == start {
      assert qs[..2 * k] + ps[2 * k..] == ps;
    } else {
      SaltFillWords(ps', salt, c, start + 1, k);
      assert ps'[2 * k..] == ps[2 * k..];
    }
  }

  lemma SaltFillStep(ps: seq<word>, salt: seq<word>, b: Pair, k: nat) returns (c: Pair, next: seq<word>)
    requires Context(ps) && |salt| == 4 && k < CTX_WORDS / 2
    ensures c == Encrypt(ps, if k % 2 == 0 then Pair(Xor(b.l, salt[0]), Xor(b.r, salt[1]))
                             else Pair(Xor(b.l, salt[2]), Xor(b.r, salt[3])))
    ensures next == ps[2 * k := c.l][2 * k + 1 := c.r]
    ensures SaltFill(ps, salt, b, k) == SaltFill(next, salt, c, k + 1)
  {
    hide Encrypt, Xor;
    var h := 2 * (k % 2);
    c := Encrypt(ps, XorPair(b, salt[h], salt[h + 1]));
    next := ps[2 * k := c.l][2 * k + 1 := c.r];
  }

  lemma FirstWords(qs: seq<word>, next: seq<word>, n: nat, ps: seq<word>)
    requires |qs| == |next| == |ps| && n + 2 <= |ps| && qs[..n + 2] == next[..n + 2] && next[..n] == ps[..n]
    ensures qs[..n] == ps[..n] && qs[n] == next[n] && qs[n + 1] == next[n + 1]
  {
    assert qs[..n] == qs[..n + 2][..n] == next[..n];
    assert qs[n] == qs[..n + 2][n] && qs[n + 1] == qs[..n + 2][n + 1];
  }

  lemma {:induction false} SaltFillKeeps(ps: seq<word>, salt: seq<word>, b: Pair, k: nat)
    requires Context(ps) && |salt| == 4 && k <= CTX_WORDS / 2
    ensures SaltFill(ps, salt, b, k)[..2 * k] == ps[..2 * k]
    decreases CTX_WORDS / 2 - k
  {
    hide Encrypt;
    if k < CTX_WORDS / 2 {
      var h := 2 * (k % 2);
      var c := Encrypt(ps, XorPair(b, salt[h], salt[h + 1]));
      var ps' := ps[2 * k := c.l][2 * k + 1 := c.r];
      SaltFillKeeps(ps', salt, c, k + 1);
      var qs := SaltFill(ps, salt, b, k);
      assert qs[..2 * k] == qs[..2 * k + 2][..2 * k] == ps'[..2 * k + 2][..2 * k];
    }
  }

  /** The P array xored with a cyclic key. */
  function XorKey(ps: seq<word>, key: seq<word>): (qs: seq<word>)
    requires Context(ps) && |key| >= 1
    ensures Context(qs)
  {
    XorUpTo(ps, key, P_WORDS)
  }

  /** The first n words xored with a cyclic key. */
  function XorUpTo(ps: seq<word>, key: seq<word>, n: nat): (qs: seq<word>)
    requires Context(ps) && |key| >= 1 && n <= P_WORDS
    ensures Context(qs) && qs[n..] == ps[n..]
  {
    if n == 0 then ps
    else
      var qs := XorUpTo(ps, key, n - 1);
      assert qs[n - 1..][1..] == qs[n..];
      qs[n - 1 := Xor(qs[n - 1], key[(n - 1) % |key|])]
  }

  /** Word i of the P array is xored with word i of the key, read over and over; the S boxes stay. */
  lemma {:induction false} XorKeyWords(ps: seq<word>, key: seq<word>, i: nat)
    requires Context(ps) && |key| >= 1 && i < CTX_WORDS
    ensures XorKey(ps, key)[i] == if i < 18 then Xor(ps[i], key[i % |key|]) else ps[i]
  {
    XorUpToWords(ps, key, P_WORDS, i);
  }

  lemma {:induction false} XorUpToWords(ps: seq<word>, key: seq<word>, n: nat, i: nat)
    requires Context(ps) && |key| >= 1 && n <= P_WORDS && i < CTX_WORDS
    ensures XorUpTo(ps, key, n)[i] == if i < n then Xor(ps[i], key[i % |key|]) else ps[i]
    decreases n
  {
    hide Xor;
    if n > 0 {
      XorUpToWords(ps, key, n - 1, i);
      XorUpToWords(ps, key, n - 1, n - 1);
    }
  }

  /** One key or salt pass: xor, then re-encrypt the whole context into itself from zero. */
  function Pass(ps: seq<word>, key: seq<word>): (qs: seq<word>)
    requires Context(ps) && |key| >= 1
    ensures Context(qs)
  {
    Chain(XorKey(ps, key), Pair(0, 0), 0, CTX_WORDS).0
  }

  function Passes(ps: seq<word>, key: seq<word>, salt: seq<word>, count: nat): (qs: seq<word>)
    requires Context(ps) && |key| >= 1 && |salt| >= 1
    ensures Context(qs)
    decreases count
  {
    if count == 0 then ps else Passes(Pass(Pass(ps, key), salt), key, salt, count - 1)
  }

  /**
   A pass leaves pairs each of which is the block of the one before, the first one of zeros, under the
   context with the key xored in of which the pairs before have been replaced.
   */
  lemma {:induction false} PassWords(ps: seq<word>, key: seq<word>, k: nat)
    requires Context(ps) && |key| >= 1 && k < CTX_WORDS / 2
    ensures var qs, xs := Pass(ps, key), XorKey(ps, key);
            Pair(qs[2 * k], qs[2 * k + 1])
            == Encrypt(qs[..2 * k] + xs[2 * k..], if k == 0 then Pair(0, 0) else Pair(qs[2 * k - 2], qs[2 * k - 1]))
  {
    hide Encrypt, Chain, XorKey;
    ChainWords(XorKey(ps, key), Pair(0, 0), 0, CTX_WORDS, 2 * k);
  }

  /** The last of n rounds mixes in the key, and then the salt. */
  lemma {:induction false} PassesLast(ps: seq<word>, key: seq<word>, salt: seq<word>, n: nat)
    requires Context(ps) && |key| >= 1 && |salt| >= 1
    ensures Passes(ps, key, salt, 0) == ps
    ensures n > 0 ==> Passes(ps, key, salt, n) == Pass(Pass(Passes(ps, key, salt, n - 1), key), salt)
    decreases n
  {
    hide Pass;
    if n > 1 { PassesLast(Pass(Pass(ps, key), salt), key, salt, n - 1); }
  }

  function Repeat(ps: seq<word>, b: Pair, n: nat): Pair
    requires Context(ps)
    decreases n
  {
    if n == 0 then b else Repeat(ps, Encrypt(ps, b), n - 1)
  }

  lemma {:induction false} RepeatLast(ps: seq<word>, b: Pair, n: nat)
    requires Context(ps) && n > 0
    ensures Repeat(ps, b, n) == Encrypt(ps, Repeat(ps, b, n - 1))
    decreases n
  {
    hide Encrypt;
    if n > 1 { RepeatLast(ps, Encrypt(ps, b), n - 1); }
  }

  /** Decrypting as often as was encrypted gives the block back. */
  lemma {:induction false} RepeatBack(ps: seq<word>, b: Pair, n: nat)
    requires Context(ps)
    ensures Repeat(ReverseP(ps), Repeat(ps, b, n), n) == b
    decreases n
  {
    hide Encrypt, ReverseP;
    if n > 0 {
      RepeatLast(ps, b, n);
      DecryptUndoesEncrypt(ps, Repeat(ps, b, n - 1));
      RepeatBack(ps, b, n - 1);
    }
  }

  /** The six words that the finished context makes of the magic text. */
  function HashOf(ps: seq<word>, magic: seq<word>): (w: seq<word>)
    requires Context(ps) && |magic| == 6
    ensures |w| == 6
  {
    var b0 := Repeat(ps, Pair(magic[0], magic[1]), 64);
    var b1 := Repeat(ps, Pair(magic[2], magic[3]), 64);
    var b2 := Repeat(ps, Pair(magic[4], magic[5]), 64);
    [b0.l, b0.r, b1.l, b1.r, b2.l, b2.r]
  }

  /** The context that the hash words are encrypted under: filled from the salt, then worked count times. */
  ghost function Finished(t: Tables, key: seq<byte>, flags: byte, count: nat, salt: seq<word>): (ps: seq<word>)
    requires t.Ok() && Password(key) && |salt| == 4
    ensures Context(ps)
  {
    Passes(SaltFill(Start(t, key, flags), salt, Pair(0, 0), 0), Expanded(key, flags), salt, count)
  }

  /** The context at the start: the keyed P array, and the S boxes of the initial state. */
  ghost function Start(t: Tables, key: seq<byte>, flags: byte): (ps: seq<word>)
    requires t.Ok() && Password(key)
    ensures Context(ps)
    ensures forall i | 0 <= i < 18 :: ps[i] == Initial(key, t.init[..P_WORDS], flags)[i]
    ensures forall i | 18 <= i < CTX_WORDS :: ps[i] == t.init[i]
  {
    Initial(key, t.init[..P_WORDS], flags) + t.init[P_WORDS..]
  }

  /**
   The finished context: with no rounds it is the start filled pair by pair, from a block of zeros and the
   first half of the salt on; each round then is a pass with the expanded key and one with the salt.
   */
  lemma {:induction false} FinishedIs(t: Tables, key: seq<byte>, flags: byte, salt: seq<word>, n: nat, k: nat)
    requires t.Ok() && Password(key) && |salt| == 4 && k < CTX_WORDS / 2
    ensures var start, qs := Start(t, key, flags), Finished(t, key, flags, 0, salt);
            var prev := if k == 0 then Pair(0, 0) else Pair(qs[2 * k - 2], qs[2 * k - 1]);
            Pair(qs[2 * k], qs[2 * k + 1])
            == Encrypt(qs[..2 * k] + start[2 * k..],
                       if k % 2 == 0 then Pair(Xor(prev.l, salt[0]), Xor(prev.r, salt[1]))
                       else Pair(Xor(prev.l, salt[2]), Xor(prev.r, salt[3])))
    ensures n > 0 ==> Finished(t, key, flags, n, salt)
                      == Pass(Pass(Finished(t, key, flags, n - 1, salt), Expanded(key, flags)), salt)
  {
    hide Encrypt, Xor, Pass, Passes, SaltFill, Initial, Expanded, Start;
    var fill := SaltFill(Start(t, key, flags), salt, Pair(0, 0), 0);
    PassesLast(fill, Expanded(key, flags), salt, n);
    SaltFillWords(Start(t, key, flags), salt, Pair(0, 0), 0, k);
  }

  /** The six words of the hash. */
  ghost function HashWords(t: Tables, key: seq<byte>, flags: byte, count: nat, salt: seq<word>): (w: seq<word>)
    requires t.Ok() && Password(key) && |salt| == 4
    ensures |w| == 6
  {
    HashOf(Finished(t, key, flags, count, salt), t.magic)
  }

  /** Decrypting the hash 64 times under the finished context gives the magic text. */
  lemma {:induction false} HashDecrypts(t: Tables, key: seq<byte>, flags: byte, count: nat, salt: seq<word>, i: nat)
    requires t.Ok() && Password(key) && |salt| == 4 && i < 3
    ensures var w, rs := HashWords(t, key, flags, count, salt), ReverseP(Finished(t, key, flags, count, salt));
            Repeat(rs, Pair(w[2 * i], w[2 * i + 1]), 64) == Pair(t.magic[2 * i], t.magic[2 * i + 1])
  {
    hide Repeat, ReverseP, Finished;
    var ps := Finished(t, key, flags, count, salt);
    RepeatBack(ps, Pair(t.magic[0], t.magic[1]), 64);
    RepeatBack(ps, Pair(t.magic[2], t.magic[3]), 64);
    RepeatBack(ps, Pair(t.magic[4], t.magic[5]), 64);
    assert i == 0 || i == 1 || i == 2;
  }

  /** BF_crypt as a function: the output string with its NUL, or None for the NULL return. */
  ghost function Crypt(t: Tables, key: seq<byte>, z: seq<byte>, min: nat): (r: Option<seq<byte>>)
    requires t.Ok() && Password(key) && CString(z)
  {
    var h := ParseHeader(z);
    if h.None? || h.value.count < min then None else
    var salt := Decode(z, SALT_AT, SALT_BYTES);
    if salt.None? then None else
    LastSaltCharacter(z);
    var words := HashWords(t, key, h.value.flags, h.value.count, Words(salt.value));
    Some(Output(z, Encode(Bytes(words)[..HASH_BYTES])))
  }

  /** The output: the setting with the spare bits of its salt cleared, then the hash. */
  function Output(z: seq<byte>, hash: seq<byte>): seq<byte>
    requires SALT_AT + SALT_TEXT <= |z|
  {
    z[..SALT_AT + SALT_TEXT - 1] + [Itoa64(Sextet(z[SALT_AT + SALT_TEXT - 1]) & 0x30)] + hash + [0]
  }

  /**
   The output: none exactly if the header is malformed, its count too small, or the salt no text of the
   alphabet; else sixty characters and NUL, the setting's first twenty-eight, and from the thirtieth on the
   text of the first twenty-three bytes of the hash words.
   */
  lemma {:induction false} CryptIs(t: Tables, key: seq<byte>, z: seq<byte>, min: nat)
    requires t.Ok() && Password(key) && CString(z)
    ensures var r, h := Crypt(t, key, z, min), ParseHeader(z);
            && (r.Some? <==> h.Some? && h.value.count >= min && |z| >= 29 && forall i | 7 <= i < 29 :: Valid(z[i]))
            && (r.Some? ==>
                  && Decode(z, 7, 16).Some?
                  && |r.value| == 61 && r.value[60] == 0 && r.value[..28] == z[..28]
                  && (var salt := Words(Decode(z, 7, 16).value);
                      Decode(r.value, 29, 23)
                      == Some(Bytes(HashWords(t, key, h.value.flags, h.value.count, salt))[..23])))
  {
    hide Decode, Encode, Valid, HashWords, ParseHeader, Itoa64, Sextet, Bytes, Words, Output;
    var h := ParseHeader(z);
    if h.None? || h.value.count < min { return; }
    DecodesIff(z, 7, 16);
    assert TextLength(16) == 22 && TextLength(23) == 31;
    var salt := Decode(z, SALT_AT, SALT_BYTES);
    if salt.None? { return; }
    var b := Bytes(HashWords(t, key, h.value.flags, h.value.count, Words(salt.value)))[..HASH_BYTES];
    LastSaltCharacter(z);
    OutputParts(z, Encode(b));
    DecodeEncode(Output(z, Encode(b)), 29, b);
  }

  lemma OutputParts(z: seq<byte>, hash: seq<byte>)
    requires SALT_AT + SALT_TEXT <= |z| && |hash| == 31
    ensures var out := Output(z, hash);
            && |out| == 61 && out[60] == 0 && CString(out) && out[..28] == z[..28] && out[29..60] == hash
  {
    hide Itoa64, Sextet;
  }

  // ---------------------------------------------------------------------------------------
  // Verification is a fixpoint

  lemma MaskTwice(c: byte)
    requires Valid(c)
    ensures Itoa64(Sextet(Itoa64(Sextet(c) & 0x30)) & 0x30) == Itoa64(Sextet(c) & 0x30)
  {
  }

  /** The salt field of the output is the canonical encoding of the salt of the setting, so it
      decodes to the same salt. */
  lemma {:induction false} OutputKeepsSalt(z: seq<byte>, hash: seq<byte>)
    requires CString(z) && SALT_AT < |z| && Decode(z, SALT_AT, SALT_BYTES).Some?
    ensures SALT_AT + SALT_TEXT <= |z|
    ensures var out := Output(z, hash);
            CString(out) && Decode(out, SALT_AT, SALT_BYTES) == Decode(z, SALT_AT, SALT_BYTES)
  {
    hide Itoa64, Sextet, Encode, Decode, Output, MaskLast;
    EncodeDecode(z, SALT_AT, SALT_BYTES);
    var salt := Decode(z, SALT_AT, SALT_BYTES).value;
    var out := Output(z, hash);
    assert TextLength(SALT_BYTES) == SALT_TEXT;
    SaltField(z, hash);
    DecodeEncode(out, SALT_AT, salt);
  }

  lemma SaltField(z: seq<byte>, hash: seq<byte>)
    requires SALT_AT + SALT_TEXT <= |z|
    ensures |Output(z, hash)| > SALT_AT + SALT_TEXT && CString(Output(z, hash))
    ensures Output(z, hash)[SALT_AT..SALT_AT + SALT_TEXT]
         == z[SALT_AT..SALT_AT + SALT_TEXT - 1] + [MaskLast(z[SALT_AT + SALT_TEXT - 1], SALT_BYTES)]
  {
  }

  /** bcrypt verification: hashing the password again with its own hash as the setting gives the
      hash back, for every password and every setting the program accepts. */
  lemma {:induction false} VerificationIsFixpoint(t: Tables, key: seq<byte>, z: seq<byte>, min: nat)
    requires t.Ok() && Password(key) && CString(z) && Crypt(t, key, z, min).Some?
    ensures var out := Crypt(t, key, z, min).value; CString(out) && Crypt(t, key, out, min) == Some(out)
  {
    hide Itoa64, Sextet, Encode, Decode, HashWords, Bytes;
    var out := Crypt(t, key, z, min).value;
    var h := ParseHeader(z).value;
    var salt := Decode(z, SALT_AT, SALT_BYTES).value;
    var hash := Encode(Bytes(HashWords(t, key, h.flags, h.count, Words(salt)))[..HASH_BYTES]);
    EncodeDecode(z, SALT_AT, SALT_BYTES);
    OutputKeepsSalt(z, hash);
    assert out[..SALT_AT] == z[..SALT_AT];
    HeaderPrefix(z, out);
    LastSaltCharacter(z);
    MaskTwice(z[SALT_AT + SALT_TEXT - 1]);
    assert Output(out, hash) == out;
  }

  lemma HeaderPrefix(z: seq<byte>, y: seq<byte>)
    requires CString(z) && CString(y) && ParseHeader(z).Some?
    requires SALT_AT <= |y| && z[..SALT_AT] == y[..SALT_AT]
    ensures ParseHeader(y) == ParseHeader(z)
  {
  }

  lemma LastSaltCharacter(z: seq<byte>)
    requires CString(z) && SALT_AT < |z| && Decode(z, SALT_AT, SALT_BYTES).Some?
    ensures SALT_AT + SALT_TEXT <= |z| && Valid(z[SALT_AT + SALT_TEXT - 1])
  {
  }

  // ---------------------------------------------------------------------------------------
  // BF_crypt, step by step in one context

  lemma EncryptOnce(ps: seq<word>, b: Pair, at: nat)
    requires Context(ps) && at + 2 <= CTX_WORDS
    ensures var c := Encrypt(ps, b); Chain(ps, b, at, at) == (ps[at := c.l][at + 1 := c.r], c)
  {
  }

  /** One turn of the salting loop: one block, encrypted into the two words at 2k. */
  lemma FillStep(ps: seq<word>, salt: seq<word>, b: Pair, k: nat)
    requires Context(ps) && |salt| == 4 && k < CTX_WORDS / 2
    ensures var h := 2 * (k % 2);
            var (qs, c) := Chain(ps, XorPair(b, salt[h], salt[h + 1]), 2 * k, 2 * k);
            && SaltFill(ps, salt, b, k) == SaltFill(qs, salt, c, k + 1)
            && c == Pair(c.l, qs[2 * k + 1])
  {
    hide Encrypt;
    EncryptOnce(ps, XorPair(b, salt[2 * (k % 2)], salt[2 * (k % 2) + 1]), 2 * k);
  }

  /** The salting loop: each block is encrypted under the words the loop has already replaced. */
  method FillFromSalt(ctx: array<word>, salt: seq<word>)
    requires Context(ctx[..]) && |salt| == 4
    modifies ctx
    ensures ctx[..] == SaltFill(old(ctx[..]), salt, Pair(0, 0), 0)
  {
    hide Encrypt, Chain, Xor, SaltFill;
    FillEnds(salt);
    var b := Pair(0, 0);
    var ptr := 0;
    while true
      invariant ptr % 4 == 0 && ptr + 2 <= CTX_WORDS
      invariant SaltFill(old(ctx[..]), salt, Pair(0, 0), 0) == SaltFill(ctx[..], salt, b, ptr / 2)
      decreases CTX_WORDS - ptr
    {
      FillStep(ctx[..], salt, b, ptr / 2);
      var c := EncryptInPlace(ctx, Xor(b.l, salt[0]), Xor(b.r, salt[1]), ptr, ptr);
      b := Pair(c.l, ctx[ptr + 1]);
      ptr := ptr + 2;
      if ptr >= CTX_WORDS { break; }
      FillStep(ctx[..], salt, b, ptr / 2);
      c := EncryptInPlace(ctx, Xor(b.l, salt[2]), Xor(b.r, salt[3]), ptr, ptr);
      b := Pair(c.l, ctx[ptr + 1]);
      ptr := ptr + 2;
    }
  }

  lemma FillEnds(salt: seq<word>)
    requires |salt| == 4
    ensures forall ps, b | Context(ps) :: SaltFill(ps, salt, b, CTX_WORDS / 2) == ps
  {
  }

  lemma XorStart(ps: seq<word>, key: seq<word>)
    requires Context(ps) && |key| >= 1
    ensures XorUpTo(ps, key, 0) == ps
  {
  }

  /** Xors the expanded key into the P array, two words a turn. */
  method XorExpandedKey(ctx: array<word>, key: seq<word>)
    requires Context(ctx[..]) && |key| == P_WORDS
    modifies ctx
    ensures ctx[..] == XorKey(old(ctx[..]), key)
  {
    hide XorUpTo;
    ghost var start := ctx[..];
    XorStart(start, key);
    var i := 0;
    while i < P_WORDS
      invariant 0 <= i <= P_WORDS && i % 2 == 0
      invariant ctx[..] == XorUpTo(start, key, i)
    {
      XorWord(ctx, key, i, start, key[i]);
      XorWord(ctx, key, i + 1, start, key[i + 1]);
      i := i + 2;
    }
  }

  /** Xors the salt into the P array, four words a turn and two at the end. */
  method XorSalt(ctx: array<word>, salt: seq<word>)
    requires Context(ctx[..]) && |salt| == 4
    modifies ctx
    ensures ctx[..] == XorKey(old(ctx[..]), salt)
  {
    hide XorUpTo;
    ghost var start := ctx[..];
    XorStart(start, salt);
    var i := 0;
    while i < ROUNDS
      invariant 0 <= i <= ROUNDS && i % 4 == 0
      invariant ctx[..] == XorUpTo(start, salt, i)
    {
      XorWord(ctx, salt, i, start, salt[0]);
      XorWord(ctx, salt, i + 1, start, salt[1]);
      XorWord(ctx, salt, i + 2, start, salt[2]);
      XorWord(ctx, salt, i + 3, start, salt[3]);
      i := i + 4;
    }
    XorWord(ctx, salt, 16, start, salt[0]);
    XorWord(ctx, salt, 17, start, salt[1]);
  }

  /** The assignment `P[i] ^= x`, where x is the next word of the cyclic key. */
  method XorWord(ctx: array<word>, ghost key: seq<word>, i: nat, ghost start: seq<word>, x: word)
    requires Context(ctx[..]) && Context(start) && |key| >= 1 && i < P_WORDS && x == key[i % |key|]
    requires ctx[..] == XorUpTo(start, key, i)
    modifies ctx
    ensures ctx[..] == XorUpTo(start, key, i + 1)
  {
    hide Xor;
    ctx[i] := Xor(ctx[i], x);
    assert ctx[..] == XorUpTo(start, key, i)[i := Xor(XorUpTo(start, key, i)[i], x)];
  }

  /** The expensive loop: `count` times a key pass and a salt pass. */
  method RunPasses(ctx: array<word>, key: seq<word>, salt: seq<word>, count0: nat)
    requires Context(ctx[..]) && |key| == P_WORDS && |salt| == 4 && count0 >= 1
    modifies ctx
    ensures ctx[..] == Passes(old(ctx[..]), key, salt, count0)
  {
    hide XorKey, Chain;
    var count := count0;
    while true
      invariant count >= 1
      invariant Context(ctx[..]) && Passes(old(ctx[..]), key, salt, count0) == Passes(ctx[..], key, salt, count)
      decreases count
    {
      XorExpandedKey(ctx, key);
      var b := EncryptInPlace(ctx, 0, 0, 0, CTX_WORDS);
      XorSalt(ctx, salt);
      b := EncryptInPlace(ctx, 0, 0, 0, CTX_WORDS);
      count := count - 1;
      if count == 0 { break; }
    }
  }

  /** Encrypts one pair of magic words 64 times. */
  method EncryptMagic(ctx: array<word>, l: word, r: word) returns (b: Pair)
    requires Context(ctx[..])
    ensures b == Repeat(ctx[..], Pair(l, r), 64)
  {
    hide Encrypt;
    b := Pair(l, r);
    var count := 64;
    while true
      invariant 1 <= count <= 64 && Repeat(ctx[..], Pair(l, r), 64) == Repeat(ctx[..], b, count)
      decreases count
    {
      b := EncryptBlock(ctx, b.l, b.r);
      count := count - 1;
      if count == 0 { break; }
    }
  }

  /** On either kind of machine, BF_swap turns the words in memory into the words meant. */
  method LoadWords(little: bool, b: seq<byte>) returns (w: seq<word>)
    requires |b| >= 4 && |b| % 4 == 0
    ensures w == Words(b)
  {
    hide BigEndian, SwapWord;
    var m := MemoryWords(little, b);
    var x := new word[|b| / 4](i requires 0 <= i < |b| / 4 => m[i]);
    BFSwap(little, x);
    w := x[..];
    forall i | 0 <= i < |b| / 4 ensures w[i] == Words(b)[i] {
      SwapReverses(b[4 * i + 3], b[4 * i + 2], b[4 * i + 1], b[4 * i]);
    }
  }

  /** On either kind of machine, the swapped words lie in memory most significant byte first. */
  method StoreWords(little: bool, x: array<word>) returns (b: seq<byte>)
    requires x.Length >= 1
    modifies x
    ensures b == Bytes(old(x[..]))
  {
    hide Lane, SwapWord, MemoryByte;
    ghost var w := x[..];
    BFSwap(little, x);
    b := MemoryBytes(little, x[..]);
    forall i | 0 <= i < 4 * x.Length ensures b[i] == Bytes(w)[i] {
      StoredByte(little, w[i / 4], i % 4);
    }
  }

  lemma StoredByte(little: bool, x: word, n: nat)
    requires n < 4
    ensures MemoryByte(little, if little then SwapWord(x) else x, n) == Lane(x, 3 - n)
  {
    hide SwapWord, Lane;
    if little { SwappedByte(x, n); }
  }

  lemma HashPair(ps: seq<word>, magic: seq<word>, i: nat)
    requires Context(ps) && |magic| == 6 && i < 6 && i % 2 == 0
    ensures var b := Repeat(ps, Pair(magic[i], magic[i + 1]), 64);
            HashOf(ps, magic)[i] == b.l && HashOf(ps, magic)[i + 1] == b.r
  {
    hide Repeat;
    assert i == 0 || i == 2 || i == 4;
  }

  /** Reads the hash out of the finished context, one pair of words a turn. */
  method ReadOut(ctx: array<word>, t: Tables) returns (output: array<word>)
    requires Context(ctx[..]) && t.Ok()
    ensures fresh(output) && output[..] == HashOf(ctx[..], t.magic)
  {
    hide Repeat, HashOf;
    output := new word[6];
    var i := 0;
    while i < 6
      invariant 0 <= i <= 6 && i % 2 == 0
      invariant forall k | 0 <= k < i :: output[k] == HashOf(ctx[..], t.magic)[k]
    {
      HashPair(ctx[..], t.magic, i);
      var b := EncryptMagic(ctx, t.magic[i], t.magic[i + 1]);
      output[i] := b.l;
      output[i + 1] := b.r;
      i := i + 2;
    }
  }

  /** BF_crypt: the context is filled, salted, worked and read out in place; the result is the
      function Crypt, on a machine of either byte order. */
  method BFCrypt(t: Tables, little: bool, key: seq<byte>, setting: seq<byte>, min: nat)
    returns (output: Option<seq<byte>>)
    requires t.Ok() && Password(key) && CString(setting)
    ensures output == Crypt(t, key, setting, min)
  {
    hide Encode, Decode, SaltFill, Passes, HashOf, Initial, Expanded, Words, Bytes, Sextet, Itoa64, Pow2;
    var header := ParseHeader(setting);
    if header.None? || header.value.count < min { return None; }
    var ok, saltBytes := BFDecode(setting, SALT_AT, SALT_BYTES);
    if !ok { return None; }
    EncodeDecode(setting, SALT_AT, SALT_BYTES);
    var salt := LoadWords(little, saltBytes);
    var expanded, initial := BFSetKey(key, t.init[..P_WORDS], header.value.flags);
    var start := initial + t.init[P_WORDS..];
    var ctx := new word[CTX_WORDS](i requires 0 <= i < CTX_WORDS => start[i]);
    assert ctx[..] == start;
    FillFromSalt(ctx, salt);
    CountPositive(setting);
    RunPasses(ctx, expanded, salt, header.value.count);
    var words := ReadOut(ctx, t);
    var bytes := StoreWords(little, words);
    var hash := BFEncode(bytes[..HASH_BYTES]);
    output := Some(Output(setting, hash));
  }

  lemma CountPositive(z: seq<byte>)
    requires CString(z) && ParseHeader(z).Some?
    ensures ParseHeader(z).value.count >= 1
  {
    PowPositive((z[4] - 0x30) as nat * 10 + (z[5] - 0x30) as nat);
  }

  lemma {:induction false} PowPositive(n: nat)
    ensures Pow2(n) >= 1
  {
    if n > 0 { PowPositive(n - 1); }
  }
}
