/**
 The 6-bit text encoding of bcrypt hashes: BF_decode and BF_encode.
 Text is a sequence of C characters, that is bytes; a C string carries its terminating NUL.
 */
module BcryptCodec {
  import opened Sextets
  import opened Wrappers

  type byte = bv8

  /** A C string as its bytes up to and including a NUL. */
  predicate CString(z: seq<byte>) {
    |z| >= 1 && z[|z| - 1] == 0
  }

  /** The table BF_itoa64, "./A-Za-z0-9". */
  function Itoa64(i: byte): byte {
    if i == 0 then 0x2E
    else if i == 1 then 0x2F
    else if i < 28 then i - 2 + 0x41
    else if i < 54 then i - 28 + 0x61
    else i - 54 + 0x30
  }

  /** The table BF_atoi64, indexed by character minus 0x20; 64 marks an invalid character. */
  function Atoi64(t: byte): byte
    requires t < 0x60
  {
    var c := t + 0x20;
    if c == 0x2E then 0
    else if c == 0x2F then 1
    else if 0x41 <= c <= 0x5A then c - 0x41 + 2
    else if 0x61 <= c <= 0x7A then c - 0x61 + 28
    else if 0x30 <= c <= 0x39 then c - 0x30 + 54
    else 64
  }

  /** BF_safe_atoi64; 64 stands for `return -1`. Subtraction wraps, as in the unsigned C code. */
  function Sextet(c: byte): byte {
    if c - 0x20 >= 0x60 then 64 else Atoi64(c - 0x20)
  }

  predicate Valid(c: byte) { Sextet(c) < 64 }

  /** The tables are inverse to each other, and NUL is not a valid character. */
  lemma TablesInverse(i: byte, c: byte)
    ensures i < 64 ==> Valid(Itoa64(i)) && Sextet(Itoa64(i)) == i
    ensures Valid(c) ==> Itoa64(Sextet(c)) == c && c != 0
  {
  }

  /** The sixty-four characters, in order: full stop, slash, capitals, small letters, digits. */
  lemma TableIs()
    ensures [
        Itoa64(0), Itoa64(1), Itoa64(2), Itoa64(3), Itoa64(4), Itoa64(5), Itoa64(6), Itoa64(7),
        Itoa64(8), Itoa64(9), Itoa64(10), Itoa64(11), Itoa64(12), Itoa64(13), Itoa64(14), Itoa64(15),
        Itoa64(16), Itoa64(17), Itoa64(18), Itoa64(19), Itoa64(20), Itoa64(21), Itoa64(22), Itoa64(23),
        Itoa64(24), Itoa64(25), Itoa64(26), Itoa64(27), Itoa64(28), Itoa64(29), Itoa64(30), Itoa64(31),
        Itoa64(32), Itoa64(33), Itoa64(34), Itoa64(35), Itoa64(36), Itoa64(37), Itoa64(38), Itoa64(39),
        Itoa64(40), Itoa64(41), Itoa64(42), Itoa64(43), Itoa64(44), Itoa64(45), Itoa64(46), Itoa64(47),
        Itoa64(48), Itoa64(49), Itoa64(50), Itoa64(51), Itoa64(52), Itoa64(53), Itoa64(54), Itoa64(55),
        Itoa64(56), Itoa64(57), Itoa64(58), Itoa64(59), Itoa64(60), Itoa64(61), Itoa64(62), Itoa64(63)] == [
        0x2E, 0x2F, 0x41, 0x42, 0x43, 0x44, 0x45, 0x46, 0x47, 0x48, 0x49, 0x4A, 0x4B, 0x4C, 0x4D, 0x4E,
        0x4F, 0x50, 0x51, 0x52, 0x53, 0x54, 0x55, 0x56, 0x57, 0x58, 0x59, 0x5A, 0x61, 0x62, 0x63, 0x64,
        0x65, 0x66, 0x67, 0x68, 0x69, 0x6A, 0x6B, 0x6C, 0x6D, 0x6E, 0x6F, 0x70, 0x71, 0x72, 0x73, 0x74,
        0x75, 0x76, 0x77, 0x78, 0x79, 0x7A, 0x30, 0x31, 0x32, 0x33, 0x34, 0x35, 0x36, 0x37, 0x38, 0x39]
  {
  }

  // The three byte-assembling expressions of BF_decode.
  function Byte1(c1: byte, c2: byte): byte { (c1 << 2) | ((c2 & 0x30) >> 4) }
  function Byte2(c2: byte, c3: byte): byte { ((c2 & 0x0F) << 4) | ((c3 & 0x3C) >> 2) }
  function Byte3(c3: byte, c4: byte): byte { ((c3 & 0x03) << 6) | c4 }

  /** One pass of the loop of BF_decode: m <= 3 bytes from the m + 1 characters at `off`. */
  function DecodeGroup(z: seq<byte>, off: nat, m: nat): (r: Option<seq<byte>>)
    requires CString(z) && off < |z| && 1 <= m <= 3
    ensures r.Some? ==> |r.value| == m && off + m + 1 < |z|
  {
    if !Valid(z[off]) then None else
    TablesInverse(0, z[off]);
    if !Valid(z[off + 1]) then None else
    TablesInverse(0, z[off + 1]);
    var c1, c2 := Sextet(z[off]), Sextet(z[off + 1]);
    if m == 1 then Some([Byte1(c1, c2)]) else
    if !Valid(z[off + 2]) then None else
    TablesInverse(0, z[off + 2]);
    var c3 := Sextet(z[off + 2]);
    if m == 2 then Some([Byte1(c1, c2), Byte2(c2, c3)]) else
    if !Valid(z[off + 3]) then None else
    TablesInverse(0, z[off + 3]);
    Some([Byte1(c1, c2), Byte2(c2, c3), Byte3(c3, Sextet(z[off + 3]))])
  }

  /** What BF_decode stores for `size` bytes read from z at `off`. */
  function Decode(z: seq<byte>, off: nat, size: nat): (r: Option<seq<byte>>)
    requires CString(z) && off < |z| && size >= 1
    ensures r.Some? ==> |r.value| == size
    decreases size
  {
    if size <= 3 then DecodeGroup(z, off, size)
    else if DecodeGroup(z, off, 3).None? then None
    else Behind(DecodeGroup(z, off, 3).value, Decode(z, off + 4, size - 3))
  }

  /** One pass of the loop of BF_encode. */
  function EncodeGroup(g: seq<byte>): (t: seq<byte>)
    requires 1 <= |g| <= 3
    ensures |t| == |g| + 1
  {
    if |g| == 1 then [Itoa64(Six1(g[0])), Itoa64(Six2(g[0], 0))]
    else if |g| == 2 then [Itoa64(Six1(g[0])), Itoa64(Six2(g[0], g[1])), Itoa64(Six3(g[1], 0))]
    else [Itoa64(Six1(g[0])), Itoa64(Six2(g[0], g[1])), Itoa64(Six3(g[1], g[2])), Itoa64(Six4(g[2]))]
  }

  /** What BF_encode writes for the bytes b. */
  function Encode(b: seq<byte>): (t: seq<byte>)
    requires |b| >= 1
    ensures |t| == TextLength(|b|)
  {
    if |b| <= 3 then EncodeGroup(b) else EncodeGroup(b[..3]) + Encode(b[3..])
  }

  /** The number of characters that carry n bytes. */
  function TextLength(n: nat): nat {
    n / 3 * 4 + if n % 3 == 0 then 0 else n % 3 + 1
  }

  lemma TextLengthStep(n: nat)
    requires n >= 1
    ensures TextLength(n) >= 2 && TextLength(n + 3) == TextLength(n) + 4
    ensures n <= 3 ==> TextLength(n) == n + 1
  {
  }

  lemma GroupBits(b1: byte, b2: byte, b3: byte)
    ensures Six1(b1) < 64 && Six2(b1, b2) < 64 && Six3(b2, b3) < 64 && Six4(b3) < 64
    ensures Byte1(Six1(b1), Six2(b1, b2)) == b1
    ensures Byte2(Six2(b1, b2), Six3(b2, b3)) == b2
    ensures Byte3(Six3(b2, b3), Six4(b3)) == b3
  {
  }

  lemma SextetBits(c1: byte, c2: byte, c3: byte, c4: byte)
    requires c1 < 64 && c2 < 64 && c3 < 64 && c4 < 64
    ensures Six1(Byte1(c1, c2)) == c1
    ensures Six2(Byte1(c1, c2), Byte2(c2, c3)) == c2 && Six2(Byte1(c1, c2), 0) == c2 & 0x30
    ensures Six3(Byte2(c2, c3), Byte3(c3, c4)) == c3 && Six3(Byte2(c2, c3), 0) == c3 & 0x3C
    ensures Six4(Byte3(c3, c4)) == c4
  {
  }

  /** The characters of a group are its bits; an incomplete group counts as filled with zeros. */
  lemma GroupIsBits(g: seq<byte>)
    requires 1 <= |g| <= 3
    ensures var t := EncodeGroup(g);
            && (forall i | 0 <= i < |t| :: Valid(t[i]))
            && OfSextets(Sextet(t[0]), Sextet(t[1]),
                         if |g| > 1 then Sextet(t[2]) else 0, if |g| > 2 then Sextet(t[3]) else 0)
               == OfBytes(g[0], if |g| > 1 then g[1] else 0, if |g| > 2 then g[2] else 0)
  {
    hide Itoa64, Sextet, Six1, Six2, Six3, Six4, OfSextets, OfBytes;
    var x, y, z := g[0], if |g| > 1 then g[1] else 0, if |g| > 2 then g[2] else 0;
    SextetsAreBits(x, y, z);
    TablesInverse(Six1(x), 0);
    TablesInverse(Six2(x, y), 0);
    TablesInverse(Six3(y, z), 0);
    TablesInverse(Six4(z), 0);
  }

  /** Group k of the text, in fours, encodes group k of the bytes, in threes. */
  lemma {:induction false} EncodeAt(b: seq<byte>, k: nat)
    requires b != []
    ensures Group(b, 3, k) == [] <==> Group(Encode(b), 4, k) == []
    ensures Group(b, 3, k) != [] ==> Group(Encode(b), 4, k) == EncodeGroup(Group(b, 3, k))
    decreases k
  {
    hide EncodeGroup;
    if |b| > 3 {
      EncodeMore(b);
      if k > 0 { EncodeAt(b[3..], k - 1); }
    }
  }

  lemma EncodeMore(b: seq<byte>)
    requires |b| > 3
    ensures |Encode(b)| > 4 && Encode(b)[..4] == EncodeGroup(b[..3]) && Encode(b)[4..] == Encode(b[3..])
  {
    hide EncodeGroup;
  }

  lemma DecodeEncodeGroup(z: seq<byte>, off: nat, g: seq<byte>)
    requires CString(z) && 1 <= |g| <= 3 && off + |g| + 1 < |z|
    requires z[off..off + |g| + 1] == EncodeGroup(g)
    ensures DecodeGroup(z, off, |g|) == Some(g)
  {
    hide Itoa64, Sextet, Byte1, Byte2, Byte3, Six1, Six2, Six3, Six4;
    var b1, b2, b3 := g[0], if |g| > 1 then g[1] else 0, if |g| > 2 then g[2] else 0;
    GroupBits(b1, b2, b3);
    TablesInverse(Six1(b1), 0);
    TablesInverse(Six2(b1, b2), 0);
    TablesInverse(Six3(b2, b3), 0);
    TablesInverse(Six4(b3), 0);
    assert forall k | 0 <= k < |g| + 1 :: z[off + k] == EncodeGroup(g)[k];
    if |g| == 1 { assert g == [b1]; } else if |g| == 2 { assert g == [b1, b2]; } else { assert g == [b1, b2, b3]; }
    assert z[off] == EncodeGroup(g)[0] && z[off + 1] == EncodeGroup(g)[1];
    if |g| > 1 { assert z[off + 2] == EncodeGroup(g)[2]; }
    if |g| > 2 { assert z[off + 3] == EncodeGroup(g)[3]; }
    assert DecodeGroup(z, off, |g|).value == [b1, b2, b3][..|g|];
  }

  /** BF_decode undoes BF_encode, for every number of bytes. */
  lemma {:induction false} DecodeEncode(z: seq<byte>, off: nat, b: seq<byte>)
    requires CString(z) && |b| >= 1 && off + TextLength(|b|) < |z|
    requires z[off..off + TextLength(|b|)] == Encode(b)
    ensures Decode(z, off, |b|) == Some(b)
    decreases |b|
  {
    hide EncodeGroup, DecodeGroup, Valid, Sextet;
    TextLengthStep(|b|);
    if |b| <= 3 {
      DecodeEncodeGroup(z, off, b);
    } else {
      var t := z[off..off + TextLength(|b|)];
      assert t[..4] == EncodeGroup(b[..3]) && t[4..] == Encode(b[3..]);
      assert z[off..off + 4] == t[..4];
      DecodeEncodeGroup(z, off, b[..3]);
      assert TextLength(|b|) == 4 + TextLength(|b[3..]|);
      assert z[off + 4..off + 4 + TextLength(|b[3..]|)] == t[4..];
      DecodeEncode(z, off + 4, b[3..]);
      assert b == b[..3] + b[3..];
    }
  }

  /** The last character of an encoding of n bytes, with the bits no byte uses cleared. */
  function MaskLast(c: byte, n: nat): byte {
    if n % 3 == 1 then Itoa64(Sextet(c) & 0x30)
    else if n % 3 == 2 then Itoa64(Sextet(c) & 0x3C)
    else c
  }

  lemma MaskLastOfFullGroup(c: byte, n: nat)
    requires n >= 1
    ensures MaskLast(c, 3) == c && MaskLast(c, n + 3) == MaskLast(c, n)
  {
  }

  lemma {:induction false} EncodeDecodeGroup(z: seq<byte>, off: nat, m: nat)
    requires CString(z) && off < |z| && 1 <= m <= 3 && DecodeGroup(z, off, m).Some?
    ensures EncodeGroup(DecodeGroup(z, off, m).value) == z[off..off + m] + [MaskLast(z[off + m], m)]
  {
    hide Itoa64, Sextet, Byte1, Byte2, Byte3, Six1, Six2, Six3, Six4;
    TablesInverse(0, z[off]);
    TablesInverse(0, z[off + 1]);
    var c1, c2 := Sextet(z[off]), Sextet(z[off + 1]);
    var c3, c4: byte := 0, 0;
    if m >= 2 { c3 := Sextet(z[off + 2]); TablesInverse(0, z[off + 2]); }
    if m >= 3 { c4 := Sextet(z[off + 3]); TablesInverse(0, z[off + 3]); }
    SextetBits(c1, c2, c3, c4);
    if m == 1 {
      assert z[off..off + 1] == [z[off]];
    } else if m == 2 {
      assert z[off..off + 2] == [z[off], z[off + 1]];
    } else {
      assert z[off..off + 3] == [z[off], z[off + 1], z[off + 2]];
    }
  }

  /** The converse: re-encoding what was decoded gives the text back, with the spare bits of its
      last character cleared. */
  lemma {:induction false} EncodeDecode(z: seq<byte>, off: nat, n: nat)
    requires CString(z) && off < |z| && n >= 1 && Decode(z, off, n).Some?
    ensures var m := TextLength(n) - 1;
            && 0 <= m && off + m + 1 < |z|
            && Encode(Decode(z, off, n).value) == z[off..off + m] + [MaskLast(z[off + m], n)]
    decreases n
  {
    hide EncodeGroup, DecodeGroup, Sextet, Itoa64, MaskLast, TextLength;
    TextLengthStep(n);
    if n <= 3 {
      EncodeDecodeGroup(z, off, n);
    } else {
      EncodeDecodeGroup(z, off, 3);
      EncodeDecode(z, off + 4, n - 3);
      TextLengthStep(n - 3);
      var g, rest := DecodeGroup(z, off, 3).value, Decode(z, off + 4, n - 3).value;
      assert (g + rest)[..3] == g && (g + rest)[3..] == rest;
      var m := TextLength(n - 3) - 1;
      var last := MaskLast(z[off + 4 + m], n - 3);
      MaskLastOfFullGroup(z[off + 3], n - 3);
      MaskLastOfFullGroup(z[off + 4 + m], n - 3);
      assert z[off..off + 4] == z[off..off + 3] + [z[off + 3]];
      assert z[off..off + 4 + m] == z[off..off + 4] + z[off + 4..off + 4 + m];
      ConcatAssoc(z[off..off + 4], z[off + 4..off + 4 + m], [last]);
    }
  }

  lemma GroupDecodesIff(z: seq<byte>, off: nat, m: nat)
    requires CString(z) && off < |z| && 1 <= m <= 3
    ensures DecodeGroup(z, off, m).Some? <==> off + m + 1 <= |z| && forall i | off <= i < off + m + 1 :: Valid(z[i])
  {
    hide Byte1, Byte2, Byte3, Sextet;
    TablesInverse(0, 0);
  }

  /** Text decodes exactly if all the characters it needs are there and in the alphabet. */
  lemma {:induction false} DecodesIff(z: seq<byte>, off: nat, size: nat)
    requires CString(z) && off < |z| && size >= 1
    ensures Decode(z, off, size).Some?
            <==> off + TextLength(size) <= |z| && forall i | off <= i < off + TextLength(size) :: Valid(z[i])
    decreases size
  {
    hide DecodeGroup, Valid;
    TextLengthStep(size);
    GroupDecodesIff(z, off, if size <= 3 then size else 3);
    if size > 3 {
      TextLengthStep(size - 3);
      if DecodeGroup(z, off, 3).Some? { DecodesIff(z, off + 4, size - 3); }
    }
  }

  /** BF_decode: reads characters of z from `off` and stores bytes front to back, or fails. It
      reads nothing beyond the terminating NUL of z. */
  method BFDecode(z: seq<byte>, off: nat, size: nat) returns (ok: bool, dst: seq<byte>)
    requires CString(z) && off < |z| && size >= 1
    ensures ok <==> Decode(z, off, size).Some?
    ensures ok ==> dst == Decode(z, off, size).value
  {
    hide Sextet, Byte1, Byte2, Byte3;
    var s: nat := off;
    dst := [];
    assert Behind([], Decode(z, off, size)) == Decode(z, off, size) by {
      if Decode(z, off, size).Some? { assert [] + Decode(z, off, size).value == Decode(z, off, size).value; }
    }
    while true
      invariant |dst| < size && s < |z|
      invariant Decode(z, off, size) == Behind(dst, Decode(z, s, size - |dst|))
      decreases size - |dst|
    {
      ghost var done := dst;
      var c1 := Sextet(z[s]);
      if c1 > 63 { return false, dst; }
      TablesInverse(0, z[s]);
      var c2 := Sextet(z[s + 1]);
      if c2 > 63 { return false, dst; }
      TablesInverse(0, z[s + 1]);
      StoreBits(c1, c2, 0, 0);
      dst := dst + [(c1 << 2) | ((c2 & 0x30) >> 4)];
      if |dst| >= size { break; }

      var c3 := Sextet(z[s + 2]);
      if c3 > 63 { return false, dst; }
      TablesInverse(0, z[s + 2]);
      StoreBits(c1, c2, c3, 0);
      dst := dst + [((c2 & 0x0F) << 4) | ((c3 & 0x3C) >> 2)];
      if |dst| >= size {
        assert dst == done + [Byte1(c1, c2), Byte2(c2, c3)];
        break;
      }

      var c4 := Sextet(z[s + 3]);
      if c4 > 63 { return false, dst; }
      TablesInverse(0, z[s + 3]);
      StoreBits(c1, c2, c3, c4);
      dst := dst + [((c3 & 0x03) << 6) | c4];
      ghost var group := [Byte1(c1, c2), Byte2(c2, c3), Byte3(c3, c4)];
      assert DecodeGroup(z, s, 3) == Some(group) && dst == done + group;
      s := s + 4;
      if |dst| >= size { break; }
      BehindAssoc(done, group, Decode(z, s, size - |dst|));
    }
    return true, dst;
  }

  /** The carry variable of BF_encode. */
  lemma CarryBits(b1: byte, b2: byte, b3: byte)
    ensures Six1(b1) == b1 >> 2 && Six4(b3) == b3 & 0x3F
    ensures Six2(b1, 0) == (b1 & 0x03) << 4 && Six2(b1, b2) == ((b1 & 0x03) << 4) | (b2 >> 4)
    ensures Six3(b2, 0) == (b2 & 0x0F) << 2 && Six3(b2, b3) == ((b2 & 0x0F) << 2) | (b3 >> 6)
  {
  }

  /** The expressions of BF_decode. */
  lemma StoreBits(c1: byte, c2: byte, c3: byte, c4: byte)
    ensures Byte1(c1, c2) == (c1 << 2) | ((c2 & 0x30) >> 4)
    ensures Byte2(c2, c3) == ((c2 & 0x0F) << 4) | ((c3 & 0x3C) >> 2)
    ensures Byte3(c3, c4) == ((c3 & 0x03) << 6) | c4
  {
  }

  lemma GroupText(b1: byte, b2: byte, b3: byte)
    ensures EncodeGroup([b1]) == [Itoa64(Six1(b1)), Itoa64(Six2(b1, 0))]
    ensures EncodeGroup([b1, b2]) == [Itoa64(Six1(b1)), Itoa64(Six2(b1, b2)), Itoa64(Six3(b2, 0))]
    ensures EncodeGroup([b1, b2, b3])
         == [Itoa64(Six1(b1)), Itoa64(Six2(b1, b2)), Itoa64(Six3(b2, b3)), Itoa64(Six4(b3))]
  {
  }

  /** One pass of the loop of BF_encode: the carry goes through c1, the end of src ends it early. */
  method EncodePass(src: seq<byte>, start: nat) returns (chars: seq<byte>, next: nat)
    requires start < |src|
    ensures next == if start + 3 < |src| then start + 3 else |src|
    ensures chars == EncodeGroup(src[start..next])
  {
    hide Itoa64, Six1, Six2, Six3, Six4, EncodeGroup;
    var s := start;
    var c1 := src[s];
    ghost var b1 := c1;
    CarryBits(b1, 0, 0);
    s := s + 1;
    chars := [Itoa64(c1 >> 2)];
    c1 := (c1 & 0x03) << 4;
    if s >= |src| {
      chars := chars + [Itoa64(c1)];
      GroupText(b1, 0, 0);
      assert src[start..s] == [b1] && chars == [Itoa64(Six1(b1)), Itoa64(Six2(b1, 0))];
      return chars, s;
    }
    var c2 := src[s];
    ghost var b2 := c2;
    CarryBits(b1, b2, 0);
    s := s + 1;
    c1 := c1 | (c2 >> 4);
    chars := chars + [Itoa64(c1)];
    assert chars == [Itoa64(Six1(b1)), Itoa64(Six2(b1, b2))];
    c1 := (c2 & 0x0F) << 2;
    if s >= |src| {
      chars := chars + [Itoa64(c1)];
      GroupText(b1, b2, 0);
      assert src[start..s] == [b1, b2];
      assert chars == [Itoa64(Six1(b1)), Itoa64(Six2(b1, b2)), Itoa64(Six3(b2, 0))];
      return chars, s;
    }
    c2 := src[s];
    CarryBits(b1, b2, c2);
    s := s + 1;
    c1 := c1 | (c2 >> 6);
    chars := chars + [Itoa64(c1)];
    assert chars == [Itoa64(Six1(b1)), Itoa64(Six2(b1, b2)), Itoa64(Six3(b2, c2))];
    chars := chars + [Itoa64(c2 & 0x3F)];
    GroupText(b1, b2, c2);
    assert src[start..s] == [b1, b2, c2];
    assert chars == [Itoa64(Six1(b1)), Itoa64(Six2(b1, b2)), Itoa64(Six3(b2, c2)), Itoa64(Six4(c2))];
    return chars, s;
  }

  /** BF_encode: writes the characters for the bytes src front to back. */
  method BFEncode(src: seq<byte>) returns (dst: seq<byte>)
    requires |src| >= 1
    ensures dst == Encode(src)
  {
    hide EncodeGroup;
    var s := 0;
    dst := [];
    assert src[0..] == src;
    while true
      invariant 0 <= s < |src|
      invariant Encode(src) == dst + Encode(src[s..])
      decreases |src| - s
    {
      ghost var done, rest := dst, src[s..];
      var chars, next := EncodePass(src, s);
      assert src[s..next] == if |rest| <= 3 then rest else rest[..3];
      dst := dst + chars;
      s := next;
      if s >= |src| { break; }
      assert src[s..] == rest[3..];
      ConcatAssoc(done, chars, Encode(src[s..]));
    }
  }
}
