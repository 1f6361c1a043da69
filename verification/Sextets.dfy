/** The 6-bit layout that both text encodings use: three bytes are four sextets. */
module Sextets {

  // The sextets of three bytes, as the encoders compute them.
  function Six1(b1: bv8): bv8 { b1 >> 2 }
  function Six2(b1: bv8, b2: bv8): bv8 { ((b1 & 0x03) << 4) | (b2 >> 4) }
  function Six3(b2: bv8, b3: bv8): bv8 { ((b2 & 0x0F) << 2) | (b3 >> 6) }
  function Six4(b3: bv8): bv8 { b3 & 0x3F }

  /** Three bytes, and four sextets, as 24 bits from the most significant one down. */
  function OfBytes(b1: bv8, b2: bv8, b3: bv8): bv24 { ((b1 as bv24) << 16) | ((b2 as bv24) << 8) | (b3 as bv24) }

  function OfSextets(c1: bv8, c2: bv8, c3: bv8, c4: bv8): bv24 {
    ((c1 as bv24) << 18) | ((c2 as bv24) << 12) | ((c3 as bv24) << 6) | (c4 as bv24)
  }

  lemma SextetsAreBits(b1: bv8, b2: bv8, b3: bv8)
    ensures OfSextets(Six1(b1), Six2(b1, b2), Six3(b2, b3), Six4(b3)) == OfBytes(b1, b2, b3)
    ensures Six1(b1) < 64 && Six2(b1, b2) < 64 && Six3(b2, b3) < 64 && Six4(b3) < 64
    ensures Six3(0, 0) == 0 && Six4(0) == 0
  {
  }

  /** Group k when s is cut into groups of n, the last of which may be shorter. */
  function Group(s: seq<bv8>, n: nat, k: nat): (g: seq<bv8>)
    requires n >= 1
    ensures |g| <= n
    decreases k
  {
    if |s| <= n then if k == 0 then s else []
    else if k == 0 then s[..n]
    else Group(s[n..], n, k - 1)
  }

  /** Its elements are those from n * k on. */
  lemma {:induction false} GroupIs(s: seq<bv8>, n: nat, k: nat)
    requires n >= 1
    ensures Group(s, n, k) == if s == [] || n * k >= |s| then []
                              else if n * k + n <= |s| then s[n * k..n * k + n] else s[n * k..]
    decreases k
  {
    if k == 0 {
      assert n * k == 0;
    } else {
      var t := if |s| <= n then [] else s[n..];
      GroupStep(n, k);
      if |s| > n { GroupIs(t, n, k - 1); }
      hide Group;
    }
  }

  lemma GroupStep(n: nat, k: nat)
    requires n >= 1 && k >= 1
    ensures n * k == n * (k - 1) + n && n * (k - 1) >= 0
  {
  }
}
