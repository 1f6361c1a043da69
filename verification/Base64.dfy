/**
 Base64 as base64.h implements it: an encoder that carries bits from byte to byte, and a decoder
 that ignores padding, accepts only canonical trailing bits and reports failure as "".
 */
module Base64 {
  import opened Sextets
  import opened Wrappers

  type byte = bv8

  const EQUALS: byte := 0x3D
  const TWO_64 := 0x1_0000_0000_0000_0000

  /** CHAR_TABLE, for sextets. */
  function Char(i: byte): byte {
    if i < 26 then i + 0x41
    else if i < 52 then i - 26 + 0x61
    else if i < 62 then i - 52 + 0x30
    else if i == 62 then 0x2B
    else 0x2F
  }

  /** REVERSE_LOOKUP_TABLE; 64 marks an invalid character. */
  function Lookup(c: byte): byte {
    if 0x41 <= c <= 0x5A then c - 0x41
    else if 0x61 <= c <= 0x7A then c - 0x61 + 26
    else if 0x30 <= c <= 0x39 then c - 0x30 + 52
    else if c == 0x2B then 62
    else if c == 0x2F then 63
    else 64
  }

  predicate Valid(c: byte) { Lookup(c) != 64 }

  lemma TablesInverse(i: byte, c: byte)
    ensures i < 64 ==> Valid(Char(i)) && Lookup(Char(i)) == i
    ensures Valid(c) ==> Lookup(c) < 64 && Char(Lookup(c)) == c && c != EQUALS
  {
  }

  /** The sixty-four characters, in order. */
  lemma TableIs()
    ensures [
        Char(0), Char(1), Char(2), Char(3), Char(4), Char(5), Char(6), Char(7),
        Char(8), Char(9), Char(10), Char(11), Char(12), Char(13), Char(14), Char(15),
        Char(16), Char(17), Char(18), Char(19), Char(20), Char(21), Char(22), Char(23),
        Char(24), Char(25), Char(26), Char(27), Char(28), Char(29), Char(30), Char(31),
        Char(32), Char(33), Char(34), Char(35), Char(36), Char(37), Char(38), Char(39),
        Char(40), Char(41), Char(42), Char(43), Char(44), Char(45), Char(46), Char(47),
        Char(48), Char(49), Char(50), Char(51), Char(52), Char(53), Char(54), Char(55),
        Char(56), Char(57), Char(58), Char(59), Char(60), Char(61), Char(62), Char(63)] == [
        0x41, 0x42, 0x43, 0x44, 0x45, 0x46, 0x47, 0x48, 0x49, 0x4A, 0x4B, 0x4C, 0x4D, 0x4E, 0x4F, 0x50,
        0x51, 0x52, 0x53, 0x54, 0x55, 0x56, 0x57, 0x58, 0x59, 0x5A, 0x61, 0x62, 0x63, 0x64, 0x65, 0x66,
        0x67, 0x68, 0x69, 0x6A, 0x6B, 0x6C, 0x6D, 0x6E, 0x6F, 0x70, 0x71, 0x72, 0x73, 0x74, 0x75, 0x76,
        0x77, 0x78, 0x79, 0x7A, 0x30, 0x31, 0x32, 0x33, 0x34, 0x35, 0x36, 0x37, 0x38, 0x39, 0x2B, 0x2F]
  {
  }

  // The bytes of four sextets.
  function Byte1(c1: byte, c2: byte): byte { (c1 << 2) | (c2 >> 4) }
  function Byte2(c2: byte, c3: byte): byte { (c2 << 4) | (c3 >> 2) }
  function Byte3(c3: byte, c4: byte): byte { (c3 << 6) | c4 }

  /** The carries that start a sextet with nothing to follow, and the spare bits a decoder sees. */
  lemma CarryBits(b1: byte, b2: byte)
    ensures Six2(b1, 0) == (b1 & 0x03) << 4 && Six3(b2, 0) == (b2 & 0x0F) << 2
  {
  }

  lemma GroupBits(b1: byte, b2: byte, b3: byte)
    ensures Six1(b1) < 64 && Six2(b1, b2) < 64 && Six3(b2, b3) < 64 && Six4(b3) < 64
    ensures Byte1(Six1(b1), Six2(b1, b2)) == b1
    ensures Byte2(Six2(b1, b2), Six3(b2, b3)) == b2
    ensures Byte3(Six3(b2, b3), Six4(b3)) == b3
  {
  }

  lemma SpareBits(b1: byte, b2: byte)
    ensures Six2(b1, 0) & 0x0F == 0 && Six3(b2, 0) & 0x03 == 0
  {
  }

  lemma SextetBits(c1: byte, c2: byte, c3: byte, c4: byte)
    requires c1 < 64 && c2 < 64 && c3 < 64 && c4 < 64
    ensures Six1(Byte1(c1, c2)) == c1 && Six4(Byte3(c3, c4)) == c4
    ensures Six2(Byte1(c1, c2), Byte2(c2, c3)) == c2 && Six3(Byte2(c2, c3), Byte3(c3, c4)) == c3
    ensures c2 & 0x0F == 0 ==> Six2(Byte1(c1, c2), 0) == c2
    ensures c3 & 0x03 == 0 ==> Six3(Byte2(c2, c3), 0) == c3
  {
  }

  // ---------------------------------------------------------------------------------------
  // What encoding and decoding mean, group by group

  function EncodeGroup(g: seq<byte>): (t: seq<byte>)
    requires 1 <= |g| <= 3
    ensures |t| == |g| + 1
  {
    if |g| == 1 then [Char(Six1(g[0])), Char(Six2(g[0], 0))]
    else if |g| == 2 then [Char(Six1(g[0])), Char(Six2(g[0], g[1])), Char(Six3(g[1], 0))]
    else [Char(Six1(g[0])), Char(Six2(g[0], g[1])), Char(Six3(g[1], g[2])), Char(Six4(g[2]))]
  }

  /** The unpadded Base64 text of some bytes. */
  function Encode(b: seq<byte>): (t: seq<byte>)
    ensures b != [] ==> |t| >= 2
  {
    if b == [] then []
    else if |b| <= 3 then EncodeGroup(b)
    else EncodeGroup(b[..3]) + Encode(b[3..])
  }

  function Padding(k: nat): seq<byte> { seq(k, _ => EQUALS) }

  function PadCount(n: nat): nat { if n % 3 == 1 then 2 else if n % 3 == 2 then 1 else 0 }

  /** The bytes of one group of characters, if it is canonical. */
  function DecodeGroup(g: seq<byte>): (r: Option<seq<byte>>)
    requires 1 <= |g| <= 4
    ensures r.Some? ==> |r.value| == |g| - 1 && |g| >= 2
  {
    if exists i | 0 <= i < |g| :: !Valid(g[i]) then None
    else if |g| == 1 then None
    else
      var c1, c2 := Lookup(g[0]), Lookup(g[1]);
      if |g| == 2 then if c2 & 0x0F == 0 then Some([Byte1(c1, c2)]) else None
      else
        var c3 := Lookup(g[2]);
        if |g| == 3 then if c3 & 0x03 == 0 then Some([Byte1(c1, c2), Byte2(c2, c3)]) else None
        else Some([Byte1(c1, c2), Byte2(c2, c3), Byte3(c3, Lookup(g[3]))])
  }

  /** The bytes of an unpadded text, if it is the encoding of some non-empty bytes. */
  function Decode(t: seq<byte>): (r: Option<seq<byte>>)
    ensures r.Some? ==> r.value != []
  {
    if t == [] then None
    else if |t| <= 4 then DecodeGroup(t)
    else if DecodeGroup(t[..4]).None? then None
    else Behind(DecodeGroup(t[..4]).value, Decode(t[4..]))
  }

  /** The text in front of the at most two final '=' characters. */
  function Strip(s: seq<byte>): seq<byte>
    requires s != []
  {
    var n := |s|;
    if s[n - 1] != EQUALS then s
    else if n >= 2 && s[n - 2] == EQUALS then s[..n - 2]
    else s[..n - 1]
  }

  /** decodeWithoutPadding as a function; [] stands for the empty string. */
  function Decoded(s: seq<byte>): seq<byte> {
    if s == [] || Decode(Strip(s)).None? then [] else Decode(Strip(s)).value
  }

  // ---------------------------------------------------------------------------------------
  // Round trip and canonicity

  /** The characters of a group are its bits; an incomplete group counts as filled with zeros. */
  lemma GroupIsBits(g: seq<byte>)
    requires 1 <= |g| <= 3
    ensures var t := EncodeGroup(g);
            && (forall i | 0 <= i < |t| :: Valid(t[i]))
            && OfSextets(Lookup(t[0]), Lookup(t[1]),
                         if |g| > 1 then Lookup(t[2]) else 0, if |g| > 2 then Lookup(t[3]) else 0)
               == OfBytes(g[0], if |g| > 1 then g[1] else 0, if |g| > 2 then g[2] else 0)
  {
    hide Char, Lookup, Six1, Six2, Six3, Six4, OfSextets, OfBytes;
    var x, y, z := g[0], if |g| > 1 then g[1] else 0, if |g| > 2 then g[2] else 0;
    SextetsAreBits(x, y, z);
    TablesInverse(Six1(x), 0);
    TablesInverse(Six2(x, y), 0);
    TablesInverse(Six3(y, z), 0);
    TablesInverse(Six4(z), 0);
  }

  /** Group k of the text, in fours, encodes group k of the bytes, in threes. */
  lemma {:induction false} EncodeAt(b: seq<byte>, k: nat)
    requires b != []
    ensures Group(b, 3, k) == [] <==> Group(Encode(b), 4, k) == []
    ensures Group(b, 3, k) != [] ==> Group(Encode(b), 4, k) == EncodeGroup(Group(b, 3, k))
    decreases k
  {
    hide EncodeGroup;
    if |b| > 3 {
      EncodeMore(b);
      if k > 0 { EncodeAt(b[3..], k - 1); }
    }
  }

  lemma EncodeMore(b: seq<byte>)
    requires |b| > 3
    ensures |Encode(b)| > 4 && Encode(b)[..4] == EncodeGroup(b[..3]) && Encode(b)[4..] == Encode(b[3..])
  {
    hide EncodeGroup;
  }

  lemma DecodeEncodeGroup(g: seq<byte>)
    requires 1 <= |g| <= 3
    ensures DecodeGroup(EncodeGroup(g)) == Some(g)
  {
    hide Lookup, Char, Six1, Six2, Six3, Six4, Byte1, Byte2, Byte3;
    var b1, b2, b3 := g[0], if |g| > 1 then g[1] else 0, if |g| > 2 then g[2] else 0;
    GroupBits(b1, b2, b3);
    SpareBits(b1, b2);
    TablesInverse(Six1(b1), 0);
    TablesInverse(Six2(b1, b2), 0);
    TablesInverse(Six3(b2, b3), 0);
    TablesInverse(Six4(b3), 0);
    assert g == [b1, b2, b3][..|g|];
    assert forall i | 0 <= i < |g| + 1 :: Valid(EncodeGroup(g)[i]);
    assert DecodeGroup(EncodeGroup(g)).value == [b1, b2, b3][..|g|];
  }

  lemma {:induction false} EncodeDecodeGroup(t: seq<byte>)
    requires 1 <= |t| <= 4 && DecodeGroup(t).Some?
    ensures EncodeGroup(DecodeGroup(t).value) == t
  {
    hide Lookup, Char, Six1, Six2, Six3, Six4, Byte1, Byte2, Byte3;
    var t3, t4 := if |t| > 2 then t[2] else t[0], if |t| > 3 then t[3] else t[0];
    assert Valid(t[0]) && Valid(t[1]);
    TablesInverse(0, t[0]);
    TablesInverse(0, t[1]);
    TablesInverse(0, t3);
    TablesInverse(0, t4);
    SextetBits(Lookup(t[0]), Lookup(t[1]), Lookup(t3), Lookup(t4));
    if |t| == 2 {
      assert t == [t[0], t[1]];
    } else if |t| == 3 {
      assert t == [t[0], t[1], t[2]];
    }
    assert EncodeGroup(DecodeGroup(t).value) == [t[0], t[1], t3, t4][..|t|];
  }

  lemma {:induction false} DecodeEncode(b: seq<byte>)
    requires b != []
    ensures Decode(Encode(b)) == Some(b)
  {
    hide EncodeGroup, DecodeGroup;
    if |b| <= 3 {
      DecodeEncodeGroup(b);
    } else {
      DecodeEncodeGroup(b[..3]);
      DecodeEncode(b[3..]);
      var t := Encode(b);
      assert t[..4] == EncodeGroup(b[..3]) && t[4..] == Encode(b[3..]);
      assert b == b[..3] + b[3..];
    }
  }

  lemma {:induction false} EncodeDecode(t: seq<byte>)
    requires Decode(t).Some?
    ensures Encode(Decode(t).value) == t
  {
    hide EncodeGroup, DecodeGroup;
    if |t| <= 4 {
      EncodeDecodeGroup(t);
    } else {
      EncodeDecodeGroup(t[..4]);
      EncodeDecode(t[4..]);
      var b := Decode(t).value;
      assert b[..3] == DecodeGroup(t[..4]).value && b[3..] == Decode(t[4..]).value;
      assert t == t[..4] + t[4..];
    }
  }

  /** No encoding contains '=', so stripping padding finds the encoding again. */
  lemma {:induction false} NoEquals(b: seq<byte>)
    ensures forall i | 0 <= i < |Encode(b)| :: Encode(b)[i] != EQUALS
  {
    hide Char, Six1, Six2, Six3, Six4;
    if b != [] {
      var g := if |b| <= 3 then b else b[..3];
      var b1, b2, b3 := g[0], if |g| > 1 then g[1] else 0, if |g| > 2 then g[2] else 0;
      GroupBits(b1, b2, b3);
      TablesInverse(Six1(b1), Char(Six1(b1)));
      TablesInverse(Six2(b1, b2), Char(Six2(b1, b2)));
      TablesInverse(Six3(b2, b3), Char(Six3(b2, b3)));
      TablesInverse(Six4(b3), Char(Six4(b3)));
      if |b| > 3 { NoEquals(b[3..]); }
    }
  }

  /** The exact inputs that decode to given non-empty bytes: their encoding with none, one or two
      '=' behind it, whatever the right amount of padding is. */
  lemma DecodedExactly(s: seq<byte>, b: seq<byte>)
    requires b != []
    ensures Decoded(s) == b <==> s in {Encode(b), Encode(b) + Padding(1), Encode(b) + Padding(2)}
  {
    hide EncodeGroup, DecodeGroup, Encode, Decode;
    var t := Encode(b);
    NoEquals(b);
    DecodeEncode(b);
    if s in {t, t + Padding(1), t + Padding(2)} {
      assert Strip(s) == t;
    } else if s != [] && Decode(Strip(s)).Some? {
      EncodeDecode(Strip(s));
      var k := |s| - |Strip(s)|;
      assert s == Strip(s) + Padding(k);
    }
  }

  /** Decoding undoes encoding, padded or not, for all bytes. */
  lemma {:induction false} RoundTrip(b: seq<byte>)
    ensures Decoded(Encode(b)) == b && Decoded(Encode(b) + Padding(PadCount(|b|))) == b
  {
    if b == [] {
      EmptyText();
    } else {
      hide EncodeGroup, DecodeGroup, Encode, Decode, Decoded;
      var t := Encode(b);
      PadCounts(b, t);
      DecodedExactly(t, b);
      DecodedExactly(t + Padding(PadCount(|b|)), b);
    }
  }

  /** Padding fills the text up to a multiple of four characters, with two of them at most. */
  lemma {:induction false} PaddedLength(b: seq<byte>)
    ensures PadCount(|b|) <= 2 && (|Encode(b)| + PadCount(|b|)) % 4 == 0
  {
    hide EncodeGroup;
    if |b| > 3 { PaddedLength(b[3..]); }
  }

  /** "M", "Ma" and "Man": "TQ==", "TWE=" and "TWFu". */
  lemma PaddedExamples()
    ensures Encode([0x4D]) + Padding(PadCount(1)) == [0x54, 0x51, 0x3D, 0x3D]
    ensures Encode([0x4D, 0x61]) + Padding(PadCount(2)) == [0x54, 0x57, 0x45, 0x3D]
    ensures Encode([0x4D, 0x61, 0x6E]) + Padding(PadCount(3)) == [0x54, 0x57, 0x46, 0x75]
  {
  }

  lemma EmptyText()
    ensures Encode([]) == [] && Encode([]) + Padding(PadCount(0)) == [] && Decoded([]) == []
  {
  }

  lemma PadCounts(b: seq<byte>, t: seq<byte>)
    ensures t + Padding(PadCount(|b|)) in {t, t + Padding(1), t + Padding(2)}
  {
    assert t + Padding(0) == t;
  }

  // ---------------------------------------------------------------------------------------
  // The code

  /** What encodeBase has emitted for the started group g, and the carry it keeps. */
  function Started(g: seq<byte>): (seq<byte>, byte)
    requires |g| <= 2
  {
    if |g| == 0 then ([], 0)
    else if |g| == 1 then ([Char(Six1(g[0]))], Six2(g[0], 0))
    else ([Char(Six1(g[0])), Char(Six2(g[0], g[1]))], Six3(g[1], 0))
  }

  lemma CarryMeets(b1: byte, b2: byte, b3: byte)
    ensures Six1(b1) == b1 >> 2 && Six4(b3) == b3 & 0x3F
    ensures Six2(b1, 0) | (b2 >> 4) == Six2(b1, b2) && Six3(b2, 0) | (b3 >> 6) == Six3(b2, b3)
  {
  }

  /** What one more byte does to a started group. */
  lemma StartedStep(g: seq<byte>, cur: byte)
    requires |g| <= 2
    ensures |g| == 0 ==> Started(g).0 == [] && Started(g).1 == 0
    ensures |g| == 1 ==> Started(g).1 == Six2(g[0], 0)
    ensures |g| == 2 ==> Started(g).1 == Six3(g[1], 0)
    ensures |g| == 0 ==> Started(g + [cur]).0 == [Char(Six1(cur))] && Started(g + [cur]).1 == Six2(cur, 0)
    ensures |g| == 1 ==> Started(g + [cur]).0 == Started(g).0 + [Char(Six2(g[0], cur))]
                         && Started(g + [cur]).1 == Six3(cur, 0)
    ensures |g| == 2 ==> EncodeGroup(g + [cur]) == Started(g).0 + [Char(Six3(g[1], cur)), Char(Six4(cur))]
  {
  }

  /** encodeBase: one byte; the characters it pushes and the new carry. */
  method EncodeBase(cur: byte, pos: nat, nextC: byte, ghost g: seq<byte>) returns (pushed: seq<byte>, carry: byte)
    requires |g| == pos % 3 && nextC == Started(g).1
    ensures pos % 3 < 2 ==> Started(g + [cur]).0 == Started(g).0 + pushed && Started(g + [cur]).1 == carry
    ensures pos % 3 == 2 ==> EncodeGroup(g + [cur]) == Started(g).0 + pushed && carry == 0
  {
    hide Char, Six1, Six2, Six3, Six4, EncodeGroup, Started;
    StartedStep(g, cur);
    CarryBits(cur, cur);
    CarryMeets(if |g| == 1 then g[0] else 0, cur, cur);
    CarryMeets(cur, if |g| == 2 then g[1] else 0, cur);
    var state := pos % 3;
    if state == 0 {
      pushed, carry := [Char(cur >> 2)], (cur & 0x03) << 4;
    } else if state == 1 {
      pushed, carry := [Char(nextC | (cur >> 4))], (cur & 0x0F) << 2;
    } else {
      pushed, carry := [Char(nextC | (cur >> 6)), Char(cur & 0x3F)], 0;
    }
  }

  /** encodeLast: the last carry, if a group is open, and the padding asked for. */
  method EncodeLast(pos: nat, lastChar: byte, ret0: seq<byte>, addPadding: bool) returns (ret: seq<byte>)
    ensures ret == ret0 + (if pos % 3 == 0 then [] else [Char(lastChar)])
                        + (if addPadding then Padding(PadCount(pos)) else [])
  {
    hide Char;
    ret := ret0;
    match pos % 3 {
      case 1 =>
        ret := ret + [Char(lastChar)];
        if addPadding { ret := ret + [EQUALS] + [EQUALS]; }
      case 2 =>
        ret := ret + [Char(lastChar)];
        if addPadding { ret := ret + [EQUALS]; }
      case _ =>
    }
  }

  /** encode: byte by byte, then encodeLast. */
  method EncodeLoop(input: seq<byte>, addPadding: bool) returns (ret: seq<byte>)
    ensures ret == Encode(input) + if addPadding then Padding(PadCount(|input|)) else []
  {
    hide Char, EncodeGroup, Started, Encode, Padding, PadCount;
    var nextC: byte := 0;
    ret := [];
    ghost var done: seq<byte>, k := [], 0;
    assert input[0..] == input && input[0..0] == [];
    StartedNothing();
    for i := 0 to |input|
      invariant k <= i < k + 3 && k % 3 == 0
      invariant Encode(input) == done + Encode(input[k..])
      invariant ret == done + Started(input[k..i]).0 && nextC == Started(input[k..i]).1
    {
      ghost var g := input[k..i];
      assert g + [input[i]] == input[k..i + 1];
      var pushed;
      pushed, nextC := EncodeBase(input[i], i, nextC, g);
      ret := ret + pushed;
      if i % 3 == 2 {
        EncodeFirst(input[k..]);
        assert input[k..][..3] == input[k..i + 1] && input[k..][3..] == input[i + 1..];
        done := done + EncodeGroup(input[k..i + 1]);
        k := i + 1;
        assert input[k..i + 1] == [];
      }
    }
    EncodeFirst(input[k..]);
    assert input[k..|input|] == input[k..];
    StartedEnds(input[k..]);
    assert Encode(input) == ret + if |input| % 3 == 0 then [] else [Char(nextC)];
    ret := EncodeLast(|input|, nextC, ret, addPadding);
  }

  lemma StartedNothing()
    ensures Started([]).0 == [] && Started([]).1 == 0
  {
  }

  lemma EncodeFirst(b: seq<byte>)
    ensures |b| >= 3 ==> Encode(b) == EncodeGroup(b[..3]) + Encode(b[3..])
    ensures 1 <= |b| <= 2 ==> Encode(b) == EncodeGroup(b)
    ensures b == [] ==> Encode(b) == []
  {
  }

  lemma StartedEnds(g: seq<byte>)
    requires |g| <= 2
    ensures g != [] ==> EncodeGroup(g) == Started(g).0 + [Char(Started(g).1)]
  {
  }

  /** The bytes decodeBase has pushed for the started group g: the last one lacks its low bits. */
  function Pushed(g: seq<byte>): seq<byte>
    requires |g| <= 3
  {
    if |g| == 0 then []
    else if |g| == 1 then [Lookup(g[0]) << 2]
    else if |g| == 2 then [Byte1(Lookup(g[0]), Lookup(g[1])), Lookup(g[1]) << 4]
    else [Byte1(Lookup(g[0]), Lookup(g[1])), Byte2(Lookup(g[1]), Lookup(g[2])), Lookup(g[2]) << 6]
  }

  /** `ret.back() |= x`. */
  function OrLast(ret: seq<byte>, x: byte): seq<byte>
    requires ret != []
  {
    ret[|ret| - 1 := Or(ret[|ret| - 1], x)]
  }

  function Or(x: byte, y: byte): byte { x | y }

  predicate AllValid(g: seq<byte>) { forall i | 0 <= i < |g| :: Valid(g[i]) }

  // What a character adds to the bytes pushed for its group.

  lemma OrSecond(done: seq<byte>, g: seq<byte>, cur: byte)
    requires |g| == 1
    ensures var c := Lookup(cur); var r := OrLast(done + Pushed(g), c >> 4);
            r == done + [Byte1(Lookup(g[0]), c)] && r + [c << 4] == done + Pushed(g + [cur])
  {
  }

  lemma OrThird(done: seq<byte>, g: seq<byte>, cur: byte)
    requires |g| == 2
    ensures var c := Lookup(cur); var r := OrLast(done + Pushed(g), c >> 2);
            && r == done + [Byte1(Lookup(g[0]), Lookup(g[1])), Byte2(Lookup(g[1]), c)]
            && r + [c << 6] == done + Pushed(g + [cur])
  {
  }

  lemma OrFourth(done: seq<byte>, g: seq<byte>, cur: byte)
    requires |g| == 3
    ensures var c := Lookup(cur);
            OrLast(done + Pushed(g), c)
            == done + [Byte1(Lookup(g[0]), Lookup(g[1])), Byte2(Lookup(g[1]), Lookup(g[2])), Byte3(Lookup(g[2]), c)]
  {
  }

  /** A group with its last character. */
  lemma GroupEnds(g: seq<byte>, cur: byte)
    requires |g| <= 3 && AllValid(g)
    ensures !Valid(cur) || |g| == 0 ==> DecodeGroup(g + [cur]).None?
    ensures Valid(cur) && |g| == 1 && Lookup(cur) & 0x0F != 0 ==> DecodeGroup(g + [cur]) == None
    ensures Valid(cur) && |g| == 1 && Lookup(cur) & 0x0F == 0 ==>
              DecodeGroup(g + [cur]) == Some([Byte1(Lookup(g[0]), Lookup(cur))])
    ensures Valid(cur) && |g| == 2 && Lookup(cur) & 0x03 != 0 ==> DecodeGroup(g + [cur]) == None
    ensures Valid(cur) && |g| == 2 && Lookup(cur) & 0x03 == 0 ==>
              DecodeGroup(g + [cur]) == Some([Byte1(Lookup(g[0]), Lookup(g[1])), Byte2(Lookup(g[1]), Lookup(cur))])
    ensures Valid(cur) && |g| == 3 ==>
              (var first, last := Byte1(Lookup(g[0]), Lookup(g[1])), Byte3(Lookup(g[2]), Lookup(cur));
               DecodeGroup(g + [cur]) == Some([first, Byte2(Lookup(g[1]), Lookup(g[2])), last]))
  {
  }

  /** What decodeBase writes for a valid character, by its state. */
  function Stepped(ret: seq<byte>, c: byte, state: nat): seq<byte>
    requires state > 0 ==> ret != []
  {
    if state == 0 then ret + [c << 2]
    else if state == 1 then OrLast(ret, c >> 4) + [c << 4]
    else if state == 2 then OrLast(ret, c >> 2) + [c << 6]
    else OrLast(ret, c)
  }

  lemma {:induction false} SteppedIs(done: seq<byte>, g: seq<byte>, cur: byte)
    requires |g| <= 3 && AllValid(g) && Valid(cur)
    ensures |g| > 0 ==> done + Pushed(g) != []
    ensures var r := Stepped(done + Pushed(g), Lookup(cur), |g|);
            if |g| < 3 then r == done + Pushed(g + [cur])
            else DecodeGroup(g + [cur]).Some? && r == done + DecodeGroup(g + [cur]).value
  {
    hide Lookup, Byte1, Byte2, Byte3, OrLast, DecodeGroup, Pushed, AllValid, Valid;
    PushedOne(cur);
    if |g| == 0 {
      assert g == [] && g + [cur] == [cur] && done + [] == done;
      return;
    }
    PushedSome(g);
    if |g| == 1 { OrSecond(done, g, cur); return; }
    if |g| == 2 { OrThird(done, g, cur); return; }
    OrFourth(done, g, cur);
    GroupEnds(g, cur);
  }

  /** decodeBase: one character that is not the last. `done` are the bytes of whole groups. */
  method DecodeBase(cur: byte, pos: nat, ret: seq<byte>, ghost done: seq<byte>, ghost g: seq<byte>)
    returns (ok: bool, out: seq<byte>)
    requires |g| == pos % 4 && AllValid(g) && ret == done + Pushed(g)
    ensures ok <==> Valid(cur)
    ensures ok && pos % 4 < 3 ==> out == done + Pushed(g + [cur])
    ensures ok && pos % 4 == 3 ==> DecodeGroup(g + [cur]).Some? && out == done + DecodeGroup(g + [cur]).value
  {
    hide Lookup, OrLast, DecodeGroup, Pushed, AllValid;
    var c := Lookup(cur);
    if c == 64 { return false, ret; }
    SteppedIs(done, g, cur);
    var state := pos % 4;
    if state == 0 {
      return true, ret + [c << 2];
    } else if state == 1 {
      out := OrLast(ret, c >> 4);
      return true, out + [c << 4];
    } else if state == 2 {
      out := OrLast(ret, c >> 2);
      return true, out + [c << 6];
    } else {
      return true, OrLast(ret, c);
    }
  }

  /** decodeLast: the last character pushes nothing and must have no spare bits. */
  method DecodeLast(cur: byte, pos: nat, ret: seq<byte>, ghost done: seq<byte>, ghost g: seq<byte>)
    returns (ok: bool, out: seq<byte>)
    requires |g| == pos % 4 && AllValid(g) && ret == done + Pushed(g)
    ensures ok <==> DecodeGroup(g + [cur]).Some?
    ensures ok ==> out == done + DecodeGroup(g + [cur]).value
  {
    hide Lookup, Byte1, Byte2, Byte3, OrLast, DecodeGroup, Pushed;
    PushedOne(cur);
    if |g| > 0 { PushedSome(g); }
    GroupEnds(g, cur);
    var c := Lookup(cur);
    if c == 64 { return false, ret; }
    var state := pos % 4;
    if state == 0 {
      return false, ret;
    } else if state == 1 {
      OrSecond(done, g, cur);
      return c & 0x0F == 0, OrLast(ret, c >> 4);
    } else if state == 2 {
      OrThird(done, g, cur);
      return c & 0x03 == 0, OrLast(ret, c >> 2);
    } else {
      OrFourth(done, g, cur);
      return true, OrLast(ret, c);
    }
  }

  /** The loop of decodeWithoutPadding over a non-empty text t, padding gone. */
  predicate Progress(t: seq<byte>, i: nat, k: nat, done: seq<byte>, ret: seq<byte>)
  {
    && k % 4 == 0 && k <= i < k + 4 && i < |t|
    && AllValid(t[k..i]) && ret == done + Pushed(t[k..i])
    && Decode(t) == Behind(done, Decode(t[k..])) && |done| == k / 4 * 3
  }

  lemma ProgressStarts(t: seq<byte>)
    requires t != []
    ensures Progress(t, 0, 0, [], [])
  {
    hide Decode, DecodeGroup;
    assert t[0..] == t;
    BehindNothing(Decode(t));
  }

  /** One successful decodeBase in front of the last character. */
  lemma ProgressSteps(t: seq<byte>, i: nat, k: nat, done: seq<byte>, ret: seq<byte>, out: seq<byte>)
    returns (k': nat, done': seq<byte>)
    requires Progress(t, i, k, done, ret) && i + 1 < |t| && Valid(t[i])
    requires var g := t[k..i] + [t[i]];
             if i - k < 3 then out == done + Pushed(g)
             else DecodeGroup(g).Some? && out == done + DecodeGroup(g).value
    ensures Progress(t, i + 1, k', done', out)
  {
    hide Decode, DecodeGroup, Pushed, Lookup;
    assert t[k..i] + [t[i]] == t[k..i + 1];
    assert AllValid(t[k..i + 1]);
    if i - k < 3 {
      k', done' := k, done;
    } else {
      DecodeFirst(t[k..]);
      assert t[k..][..4] == t[k..i + 1] && t[k..][4..] == t[i + 1..];
      BehindAssoc(done, DecodeGroup(t[k..i + 1]).value, Decode(t[i + 1..]));
      k', done' := i + 1, out;
      PushedNothing();
      assert t[k'..i + 1] == [] && done' + [] == out;
    }
  }

  /** Before the last character: only its group is left to decode. */
  lemma {:induction false} ProgressEnds(t: seq<byte>, i: nat, k: nat, done: seq<byte>, ret: seq<byte>)
    requires Progress(t, i, k, done, ret) && i + 1 == |t|
    ensures k <= i && |t[k..i]| == i % 4 && AllValid(t[k..i]) && ret == done + Pushed(t[k..i])
    ensures |done| == i / 4 * 3 && Decode(t) == Behind(done, DecodeGroup(t[k..i] + [t[i]]))
  {
    hide DecodeGroup, Pushed, Decode, AllValid;
    SameGroup(i, k);
    DecodeFirst(t[k..]);
    assert t[k..i] + [t[i]] == t[k..];
  }

  lemma SameGroup(i: nat, k: nat)
    requires k % 4 == 0 && k <= i < k + 4
    ensures k / 4 == i / 4 && i % 4 == i - k
  {
  }

  lemma OnlyPadding()
    ensures Decode([]).None?
  {
  }

  /** decodeWithoutPadding. `last = n - 1` wraps in 64 bits when padding is all there is; the loop
      then stops at the first character, before it reads past the end. The final size check,
      `ret.size() == max_length`, always passes. */
  method DecodeWithoutPadding(input: seq<byte>) returns (ret: seq<byte>)
    requires |input| < TWO_64
    ensures ret == Decoded(input)
  {
    hide Decode;
    if |input| == 0 { return []; }
    var n := |input|;
    if input[n - 1] == EQUALS {
      n := n - 1;
      if n > 0 && input[n - 1] == EQUALS {
        n := n - 1;
      }
    }
    assert Strip(input) == input[..n];
    var last := (n - 1) % TWO_64;
    var maxLength := (n + 3) / 4 * 3;
    if n % 4 == 3 { maxLength := maxLength - 1; }
    if n % 4 == 2 { maxLength := maxLength - 2; }
    var ok;
    ok, ret := DecodeLoop(input, n, last);
    if !ok { return []; }
    SizeCheck(n);
    assert |ret| == maxLength;
  }

  /** The loop over all characters but the last, and the last. */
  method DecodeLoop(input: seq<byte>, n: nat, last: nat) returns (ok: bool, ret: seq<byte>)
    requires n <= |input| && last == (n - 1) % TWO_64 && n < TWO_64
    requires n == 0 ==> |input| > 0 && input[0] == EQUALS
    ensures ok <==> Decode(input[..n]).Some?
    ensures ok ==> n > 0 && Decode(input[..n]) == Some(ret) && |ret| == (n - 1) / 4 * 3 + (n - 1) % 4 && n % 4 != 1
  {
    hide Lookup, Decode, DecodeGroup, Pushed, Progress;
    ghost var t := input[..n];
    ret := [];
    ghost var k: nat, done := 0, [];
    if n > 0 { ProgressStarts(t); }
    OnlyPadding();
    var i := 0;
    while i < last
      invariant i <= last && (n == 0 ==> i == 0 && ret == [])
      invariant n > 0 ==> Progress(t, i, k, done, ret)
      decreases last - i
    {
      var out;
      ok, out := Base(input, i, ret, t, k, done);
      if !ok { return false, []; }
      k, done := ProgressSteps(t, i, k, done, ret, out);
      ret := out;
      i := i + 1;
    }
    ProgressEnds(t, i, k, done, ret);
    ok, ret := DecodeLast(input[last], last, ret, done, t[k..i]);
  }

  /** The output length computed up front is three bytes a whole group and one less than its
      characters for a short last group. */
  lemma SizeCheck(n: nat)
    requires n >= 1 && n % 4 != 1
    ensures (n + 3) / 4 * 3 - (if n % 4 == 3 then 1 else 0) - (if n % 4 == 2 then 2 else 0)
            == (n - 1) / 4 * 3 + (n - 1) % 4
  {
  }

  /** Where the loop stands: in a text, or at the padding of an empty one. */
  predicate Standing(input: seq<byte>, i: nat, ret: seq<byte>, t: seq<byte>, k: nat, done: seq<byte>) {
    && |t| <= |input| && t == input[..|t|]
    && if t == [] then i == 0 && ret == [] && |input| > 0 && input[0] == EQUALS && Decode(t).None?
       else Progress(t, i, k, done, ret) && i + 1 < |t|
  }

  /** The started group, and the bytes behind it. */
  function GroupAt(t: seq<byte>, k: nat, i: nat): seq<byte> { if k <= i <= |t| then t[k..i] else [] }

  function DoneAt(t: seq<byte>, done: seq<byte>): seq<byte> { if t == [] then [] else done }

  lemma StandingReady(input: seq<byte>, i: nat, ret: seq<byte>, t: seq<byte>, k: nat, done: seq<byte>)
    requires Standing(input, i, ret, t, k, done)
    ensures i < |input| && |GroupAt(t, k, i)| == i % 4 && AllValid(GroupAt(t, k, i))
    ensures ret == DoneAt(t, done) + Pushed(GroupAt(t, k, i))
    ensures t == [] ==> !Valid(input[i])
    ensures t != [] ==> k <= i < |t| && input[i] == t[i] && GroupAt(t, k, i) == t[k..i] && i - k == i % 4
  {
    hide Lookup, Decode, DecodeGroup, Pushed, AllValid;
    EqualsInvalid();
    PushedNothing();
  }

  lemma StandingFails(input: seq<byte>, i: nat, ret: seq<byte>, t: seq<byte>, k: nat, done: seq<byte>)
    requires Standing(input, i, ret, t, k, done) && i < |input| && !Valid(input[i])
    ensures Decode(t).None?
  {
    hide Lookup, Decode, DecodeGroup, Pushed, AllValid;
    if t != [] { InvalidFails(t[k..], i - k); }
  }

  /** The call of decodeBase in the loop: on failure nothing can be decoded. */
  method Base(input: seq<byte>, i: nat, ret: seq<byte>, ghost t: seq<byte>, ghost k: nat, ghost done: seq<byte>)
    returns (ok: bool, out: seq<byte>)
    requires Standing(input, i, ret, t, k, done)
    ensures !ok ==> Decode(t).None?
    ensures ok ==> t != [] && k <= i < |t| && i - k < 4 && Valid(t[i])
    ensures ok ==> var g := t[k..i] + [t[i]];
                   if i - k < 3 then out == done + Pushed(g)
                   else DecodeGroup(g).Some? && out == done + DecodeGroup(g).value
  {
    hide Lookup, DecodeGroup, Pushed, Decode, AllValid, Standing;
    StandingReady(input, i, ret, t, k, done);
    ok, out := DecodeBase(input[i], i, ret, DoneAt(t, done), GroupAt(t, k, i));
    if !ok { StandingFails(input, i, ret, t, k, done); }
  }

  lemma PushedOne(cur: byte)
    ensures Pushed([]) == [] && Pushed([cur]) == [Lookup(cur) << 2]
  {
  }

  lemma PushedSome(g: seq<byte>)
    requires 1 <= |g| <= 3
    ensures Pushed(g) != []
  {
  }

  lemma PushedNothing()
    ensures Pushed([]) == [] && AllValid([])
  {
  }

  lemma EqualsInvalid()
    ensures !Valid(EQUALS)
  {
  }

  lemma InvalidFails(t: seq<byte>, i: nat)
    requires i < |t| && i < 4 && !Valid(t[i])
    ensures Decode(t).None?
  {
  }

  lemma DecodeFirst(t: seq<byte>)
    ensures 1 <= |t| <= 4 ==> Decode(t) == DecodeGroup(t)
    ensures |t| > 4 && DecodeGroup(t[..4]).Some? ==> Decode(t) == Behind(DecodeGroup(t[..4]).value, Decode(t[4..]))
  {
  }

  lemma BehindNothing(r: Option<seq<byte>>)
    ensures Behind([], r) == r
  {
    if r.Some? { assert [] + r.value == r.value; }
  }
}
