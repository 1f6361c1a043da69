/**
 The string operations that the components share: searching, splitting and trimming. A string is a
 sequence of bytes; each byte is written here as the char with that code.
 */
module Strings {

  /** t occurs in s at i. */
  predicate At(s: string, t: string, i: nat) {
    i + |t| <= |s| && s[i..i + |t|] == t
  }

  /** The leftmost occurrence of t in s from i on, -1 when there is none. */
  function Find(s: string, t: string, i: nat): (r: int)
    requires i <= |s|
    ensures r == -1 || (i <= r && At(s, t, r))
    ensures r == -1 ==> forall j: nat | i <= j :: !At(s, t, j)
    ensures forall j: nat | i <= j < r :: !At(s, t, j)
    decreases |s| - i
  {
    if At(s, t, i) then i else if i == |s| then -1 else Find(s, t, i + 1)
  }

  /** strings.Index. */
  function Index(s: string, t: string): (r: int)
    ensures r == -1 || (r >= 0 && At(s, t, r))
    ensures r == -1 ==> forall j: nat :: !At(s, t, j)
    ensures forall j: nat | j < r :: !At(s, t, j)
  {
    Find(s, t, 0)
  }

  lemma IndexIs(s: string, t: string, k: nat)
    requires At(s, t, k) && forall j: nat | j < k :: !At(s, t, j)
    ensures Index(s, t) == k
  {
  }

  lemma AtAppend(s: string, e: string, t: string, i: nat)
    requires i + |t| <= |s|
    ensures At(s + e, t, i) <==> At(s, t, i)
  {
  }

  /** An occurrence stays the leftmost one whatever is appended. */
  lemma IndexAppend(s: string, e: string, t: string)
    requires Index(s, t) >= 0
    ensures Index(s + e, t) == Index(s, t)
  {
    var k := Index(s, t);
    forall j: nat | j <= k ensures At(s + e, t, j) <==> At(s, t, j) { AtAppend(s, e, t, j); }
    IndexIs(s + e, t, k);
  }

  /** strings.IndexAny for a set of one char. */
  function IndexAny(s: string, c: char): (r: int)
    ensures r == -1 || (0 <= r < |s| && s[r] == c)
    ensures r == -1 ==> forall j: nat | j < |s| :: s[j] != c
    ensures forall j: nat | j < r :: s[j] != c
  {
    if s == "" then -1
    else if s[0] == c then 0
    else
      var k := IndexAny(s[1..], c);
      assert forall j: nat | 0 < j < |s| :: s[j] == s[1..][j - 1];
      if k == -1 then -1 else k + 1
  }

  /** The rightmost c, as rfind and lastIndexOf give it; -1 when there is none. */
  function LastIndex(s: string, c: char): (r: int)
    ensures r == -1 || (0 <= r < |s| && s[r] == c)
    ensures forall j: nat | r < j < |s| :: s[j] != c
  {
    if s == "" then -1
    else if s[|s| - 1] == c then |s| - 1
    else LastIndex(s[..|s| - 1], c)
  }

  /** Splitting at every c. */
  function SplitChar(s: string, c: char): (parts: seq<string>)
    ensures |parts| >= 1
  {
    if s == "" then [""]
    else
      var parts := SplitChar(s[1..], c);
      if s[0] == c then [""] + parts else [[s[0]] + parts[0]] + parts[1..]
  }

  /** The parts with c between them. */
  function JoinChar(parts: seq<string>, c: char): string
    requires parts != []
  {
    if |parts| == 1 then parts[0] else parts[0] + [c] + JoinChar(parts[1..], c)
  }

  predicate Without(parts: seq<string>, c: char) { forall i | 0 <= i < |parts| :: c !in parts[i] }

  lemma {:induction false} SplitJoins(s: string, c: char)
    ensures JoinChar(SplitChar(s, c), c) == s && Without(SplitChar(s, c), c)
  {
    if s != "" {
      SplitJoins(s[1..], c);
      var parts := SplitChar(s[1..], c);
      assert s == [s[0]] + s[1..];
      if s[0] == c {
        assert ([""] + parts)[1..] == parts;
      } else {
        var more := [[s[0]] + parts[0]] + parts[1..];
        assert more[1..] == parts[1..];
        if |parts| > 1 {
          var rest := [c] + JoinChar(parts[1..], c);
          assert more[0] + rest == [s[0]] + (parts[0] + rest);
        }
      }
    }
  }

  lemma {:induction false} SplitFirst(p: string, rest: string, c: char)
    requires c !in p
    ensures SplitChar(p, c) == [p] && SplitChar(p + [c] + rest, c) == [p] + SplitChar(rest, c)
  {
    if p == "" {
      assert (p + [c] + rest)[1..] == rest;
    } else {
      SplitFirst(p[1..], rest, c);
      assert (p + [c] + rest)[1..] == p[1..] + [c] + rest && p == [p[0]] + p[1..];
    }
  }

  lemma {:induction false} JoinSplits(parts: seq<string>, c: char)
    requires parts != [] && Without(parts, c)
    ensures SplitChar(JoinChar(parts, c), c) == parts
  {
    if |parts| == 1 {
      SplitFirst(parts[0], "", c);
    } else {
      JoinSplits(parts[1..], c);
      SplitFirst(parts[0], JoinChar(parts[1..], c), c);
      assert parts == [parts[0]] + parts[1..];
    }
  }

  /** The parts hold no c and join to s, and no other list of parts does. */
  lemma SplitJoinIff(s: string, c: char, parts: seq<string>)
    requires parts != []
    ensures parts == SplitChar(s, c) <==> JoinChar(parts, c) == s && forall i | 0 <= i < |parts| :: c !in parts[i]
  {
    SplitJoins(s, c);
    if Without(parts, c) { JoinSplits(parts, c); }
  }

  /** The encoded length of the Unicode white space that starts s, 0 when s starts with none. */
  function WhiteHead(s: string): (n: nat)
    ensures n <= |s|
  {
    if |s| >= 1 && White1(s[0]) then 1
    else if |s| >= 2 && White2(s[0], s[1]) then 2
    else if |s| >= 3 && White3(s[0], s[1], s[2]) then 3
    else 0
  }

  function WhiteTail(s: string): (n: nat)
    ensures n <= |s|
  {
    var k := |s|;
    if k >= 1 && White1(s[k - 1]) then 1
    else if k >= 2 && White2(s[k - 2], s[k - 1]) then 2
    else if k >= 3 && White3(s[k - 3], s[k - 2], s[k - 1]) then 3
    else 0
  }

  // The UTF-8 encodings of the characters of unicode.IsSpace.
  predicate White1(a: char) { '\U{09}' <= a <= '\U{0D}' || a == ' ' }
  predicate White2(a: char, b: char) { a == '\U{C2}' && (b == '\U{85}' || b == '\U{A0}') }
  predicate White3(a: char, b: char, c: char) {
    || (a == '\U{E1}' && b == '\U{9A}' && c == '\U{80}')
    || (a == '\U{E2}' && b == '\U{80}'
        && ('\U{80}' <= c <= '\U{8A}' || c == '\U{A8}' || c == '\U{A9}' || c == '\U{AF}'))
    || (a == '\U{E2}' && b == '\U{81}' && c == '\U{9F}')
    || (a == '\U{E3}' && b == '\U{80}' && c == '\U{80}')
  }

  function TrimLeft(s: string): (r: string)
    ensures |r| <= |s|
  {
    if WhiteHead(s) == 0 then s else TrimLeft(s[WhiteHead(s)..])
  }

  lemma HeadOfPrefix(s: string, k: nat)
    requires k <= |s|
    ensures WhiteHead(s) == 0 ==> WhiteHead(s[..k]) == 0
  {
  }

  function TrimRight(s: string): (r: string)
    ensures |r| <= |s|
  {
    if WhiteTail(s) == 0 then s else TrimRight(s[..|s| - WhiteTail(s)])
  }

  lemma {:induction false} TrimLeftWithin(s: string)
    ensures var r := TrimLeft(s); r == s[|s| - |r|..] && WhiteHead(r) == 0
  {
    if WhiteHead(s) != 0 { TrimLeftWithin(s[WhiteHead(s)..]); }
  }

  lemma {:induction false} TrimRightWithin(s: string)
    ensures var r := TrimRight(s); r <= s && WhiteTail(r) == 0 && (WhiteHead(s) == 0 ==> WhiteHead(r) == 0)
  {
    if WhiteTail(s) != 0 {
      HeadOfPrefix(s, |s| - WhiteTail(s));
      TrimRightWithin(s[..|s| - WhiteTail(s)]);
    }
  }

  /** strings.TrimSpace. */
  function TrimSpace(s: string): string {
    TrimRight(TrimLeft(s))
  }

  /** TrimSpace gives a substring that neither starts nor ends with white space. */
  lemma {:induction false} TrimSpaceWithin(s: string)
    ensures At(s, TrimSpace(s), |s| - |TrimLeft(s)|)
    ensures WhiteHead(TrimSpace(s)) == 0 && WhiteTail(TrimSpace(s)) == 0
  {
    hide WhiteHead, WhiteTail, TrimLeft, TrimRight;
    var t := TrimLeft(s);
    var r, k := TrimRight(t), |s| - |t|;
    TrimLeftWithin(s);
    TrimRightWithin(t);
    assert s[k..k + |r|] == s[k..][..|r|];
  }

  // ---- White space by code point ----

  /** The code points below 0x10000 that are white space in Unicode; there are none above. */
  predicate IsSpace(cp: int) {
    || 0x9 <= cp <= 0xD || cp == 0x20 || cp == 0x85 || cp == 0xA0 || cp == 0x1680 || 0x2000 <= cp <= 0x200A
    || cp == 0x2028 || cp == 0x2029 || cp == 0x202F || cp == 0x205F || cp == 0x3000
  }

  predicate Continues(c: char) { 0x80 <= c as int < 0xC0 }

  /** The code point that a text of up to three bytes encodes in UTF-8, -1 for any other text. */
  function CodePoint(u: string): int {
    if |u| == 1 && u[0] as int < 0x80 then u[0] as int
    else if |u| == 2 && 0xC2 <= u[0] as int < 0xE0 && Continues(u[1]) then
      (u[0] as int - 0xC0) * 64 + (u[1] as int - 0x80)
    else if |u| == 3 && 0xE0 <= u[0] as int < 0xF0 && Continues(u[1]) && Continues(u[2]) then
      var cp := (u[0] as int - 0xE0) * 4096 + (u[1] as int - 0x80) * 64 + (u[2] as int - 0x80);
      if cp < 0x800 then -1 else cp // the shortest encoding only
    else -1
  }

  lemma WhiteIs(a: char, b: char, c: char)
    ensures White1(a) <==> IsSpace(CodePoint([a]))
    ensures White2(a, b) <==> IsSpace(CodePoint([a, b]))
    ensures White3(a, b, c) <==> IsSpace(CodePoint([a, b, c]))
  {
  }

  lemma SpaceBytes(u: string)
    requires IsSpace(CodePoint(u))
    ensures |u| == 1 || |u| == 2 || |u| == 3
    ensures |u| == 1 ==> u[0] as int < 0x80
    ensures |u| == 2 ==> 0xC2 <= u[0] as int < 0xE0 && Continues(u[1])
    ensures |u| == 3 ==> 0xE0 <= u[0] as int && Continues(u[1]) && Continues(u[2])
  {
  }

  /** No text starts, or ends, with spaces of different lengths. */
  lemma OneLength(s: string, m: nat, n: nat)
    requires 0 < m <= |s| && 0 < n <= |s|
    ensures IsSpace(CodePoint(s[..m])) && IsSpace(CodePoint(s[..n])) ==> m == n
    ensures IsSpace(CodePoint(s[|s| - m..])) && IsSpace(CodePoint(s[|s| - n..])) ==> m == n
  {
    hide IsSpace, CodePoint;
    if IsSpace(CodePoint(s[..m])) { SpaceBytes(s[..m]); }
    if IsSpace(CodePoint(s[..n])) { SpaceBytes(s[..n]); }
    if IsSpace(CodePoint(s[|s| - m..])) { SpaceBytes(s[|s| - m..]); }
    if IsSpace(CodePoint(s[|s| - n..])) { SpaceBytes(s[|s| - n..]); }
  }

  lemma SpaceLength(u: string)
    requires IsSpace(CodePoint(u))
    ensures 1 <= |u| <= 3
  {
  }

  /** A text starts, or ends, with n bytes of white space exactly if these bytes encode a space. */
  lemma WhiteIff(s: string, n: nat)
    requires 0 < n <= |s|
    ensures WhiteHead(s) == n <==> IsSpace(CodePoint(s[..n]))
    ensures WhiteTail(s) == n <==> IsSpace(CodePoint(s[|s| - n..]))
  {
    hide IsSpace, CodePoint, WhiteHead, WhiteTail;
    var m, t := WhiteHead(s), WhiteTail(s);
    HeadIsSpace(s);
    TailIsSpace(s);
    if m > 0 { OneLength(s, m, n); }
    if t > 0 { OneLength(s, t, n); }
    if IsSpace(CodePoint(s[..n])) {
      SpaceLength(s[..n]);
      HeadFound(s, n);
    }
    if IsSpace(CodePoint(s[|s| - n..])) {
      SpaceLength(s[|s| - n..]);
      TailFound(s, n);
    }
  }

  lemma HeadIsSpace(s: string)
    ensures WhiteHead(s) > 0 ==> IsSpace(CodePoint(s[..WhiteHead(s)]))
  {
    hide White1, White2, White3, IsSpace, CodePoint;
    if |s| >= 1 {
      WhiteIs(s[0], if |s| > 1 then s[1] else s[0], if |s| > 2 then s[2] else s[0]);
      assert s[..1] == [s[0]];
    }
    if |s| >= 2 { assert s[..2] == [s[0], s[1]]; }
    if |s| >= 3 { assert s[..3] == [s[0], s[1], s[2]]; }
  }

  lemma HeadFound(s: string, n: nat)
    requires 1 <= n <= 3 && n <= |s| && IsSpace(CodePoint(s[..n]))
    ensures WhiteHead(s) > 0
  {
    hide White1, White2, White3, IsSpace, CodePoint;
    WhiteIs(s[0], if |s| > 1 then s[1] else s[0], if |s| > 2 then s[2] else s[0]);
    assert s[..1] == [s[0]];
    if |s| >= 2 { assert s[..2] == [s[0], s[1]]; }
    if |s| >= 3 { assert s[..3] == [s[0], s[1], s[2]]; }
  }

  lemma TailIsSpace(s: string)
    ensures WhiteTail(s) > 0 ==> IsSpace(CodePoint(s[|s| - WhiteTail(s)..]))
  {
    hide White1, White2, White3, IsSpace, CodePoint;
    var k := |s|;
    if k >= 1 { LastBytes(s); }
  }

  lemma TailFound(s: string, n: nat)
    requires 1 <= n <= 3 && n <= |s| && IsSpace(CodePoint(s[|s| - n..]))
    ensures WhiteTail(s) > 0
  {
    hide White1, White2, White3, IsSpace, CodePoint;
    LastBytes(s);
  }

  lemma LastBytes(s: string)
    requires s != ""
    ensures var k := |s|;
            && (White1(s[k - 1]) <==> IsSpace(CodePoint(s[k - 1..])))
            && (k >= 2 ==> (White2(s[k - 2], s[k - 1]) <==> IsSpace(CodePoint(s[k - 2..]))))
            && (k >= 3 ==> (White3(s[k - 3], s[k - 2], s[k - 1]) <==> IsSpace(CodePoint(s[k - 3..]))))
  {
    hide White1, White2, White3, IsSpace, CodePoint;
    var k := |s|;
    assert s[k - 1..] == [s[k - 1]];
    WhiteIs(s[k - 1], ' ', ' ');
    if k >= 2 {
      assert s[k - 2..] == [s[k - 2], s[k - 1]];
      WhiteIs(s[k - 2], s[k - 1], ' ');
    }
    if k >= 3 {
      assert s[k - 3..] == [s[k - 3], s[k - 2], s[k - 1]];
      WhiteIs(s[k - 3], s[k - 2], s[k - 1]);
    }
  }

  /** A text made of encoded spaces. */
  predicate AllSpaces(s: string) {
    s == "" || (exists n | 0 < n <= |s| :: IsSpace(CodePoint(s[..n])) && AllSpaces(s[n..]))
  }

  predicate AllSpacesBack(s: string) {
    s == "" || (exists m | 0 <= m < |s| :: IsSpace(CodePoint(s[m..])) && AllSpacesBack(s[..m]))
  }

  /** TrimSpace takes off spaces on both sides, and as many as there are. */
  lemma {:induction false} TrimSpaceMeans(s: string) returns (a: string, b: string)
    ensures s == a + TrimSpace(s) + b && AllSpaces(a) && AllSpacesBack(b)
    ensures var t := TrimSpace(s);
            && (forall n | 0 < n <= |t| :: !IsSpace(CodePoint(t[..n])))
            && (forall m | 0 <= m < |t| :: !IsSpace(CodePoint(t[m..])))
  {
    hide AllSpaces, AllSpacesBack, IsSpace, CodePoint, TrimLeft, TrimRight, At;
    var l, t := TrimLeft(s), TrimSpace(s);
    a, b := s[..|s| - |l|], l[|t|..];
    LeftSpaces(s);
    RightSpaces(l);
    TrimLeftWithin(s);
    TrimRightWithin(l);
    assert s == a + l && l == t + b;
    NoSpaceLeft(s);
  }

  lemma NoSpaceLeft(s: string)
    ensures var t := TrimSpace(s);
            && (forall n | 0 < n <= |t| :: !IsSpace(CodePoint(t[..n])))
            && (forall m | 0 <= m < |t| :: !IsSpace(CodePoint(t[m..])))
  {
    hide IsSpace, CodePoint, TrimSpace, WhiteHead, WhiteTail, At;
    TrimSpaceWithin(s);
    var t := TrimSpace(s);
    forall n | 0 < n <= |t| ensures !IsSpace(CodePoint(t[..n])) { WhiteIff(t, n); }
    forall m | 0 <= m < |t| ensures !IsSpace(CodePoint(t[m..])) { WhiteIff(t, |t| - m); }
  }

  lemma SpaceAdded(u: string, a: string)
    requires u != "" && IsSpace(CodePoint(u))
    ensures AllSpaces(a) ==> AllSpaces(u + a)
    ensures AllSpacesBack(a) ==> AllSpacesBack(a + u)
  {
    hide IsSpace, CodePoint;
    var f, g := u + a, a + u;
    assert f[..|u|] == u && f[|u|..] == a;
    assert g[|a|..] == u && g[..|a|] == a;
  }

  lemma TrimLeftStep(s: string)
    ensures TrimLeft(s) == if WhiteHead(s) == 0 then s else TrimLeft(s[WhiteHead(s)..])
  {
  }

  lemma {:induction false} LeftSpaces(s: string)
    ensures AllSpaces(s[..|s| - |TrimLeft(s)|])
  {
    hide IsSpace, CodePoint, WhiteHead, AllSpaces, AllSpacesBack, TrimLeft;
    var n, r := WhiteHead(s), TrimLeft(s);
    TrimLeftStep(s);
    if n > 0 {
      var c := s[n..];
      LeftSpaces(c);
      WhiteIff(s, n);
      SpaceAdded(s[..n], c[..|c| - |r|]);
      assert s[..|s| - |r|] == s[..n] + c[..|c| - |r|];
    } else {
      assert AllSpaces("") by { NoSpaces(); }
      assert s[..0] == "";
    }
  }

  lemma NoSpaces()
    ensures AllSpaces("") && AllSpacesBack("")
  {
  }

  lemma {:induction false} RightSpaces(s: string)
    ensures AllSpacesBack(s[|TrimRight(s)|..])
  {
    hide IsSpace, CodePoint, WhiteTail, WhiteHead, AllSpaces, AllSpacesBack;
    var n, r := WhiteTail(s), TrimRight(s);
    if n > 0 {
      var c := s[..|s| - n];
      RightSpaces(c);
      WhiteIff(s, n);
      SpaceAdded(s[|s| - n..], c[|r|..]);
      assert s[|r|..] == c[|r|..] + s[|s| - n..];
    } else {
      assert AllSpacesBack("") by { NoSpaces(); }
      assert s[|s|..] == "";
    }
  }

  /** strings.HasPrefix and strings.HasSuffix. */
  predicate HasPrefix(s: string, p: string) { p <= s }

  predicate HasSuffix(s: string, p: string) { |p| <= |s| && s[|s| - |p|..] == p }

  lemma PrefixIff(s: string, p: string)
    ensures HasPrefix(s, p) <==> exists t: string :: s == p + t
    ensures HasSuffix(s, p) <==> exists t: string :: s == t + p
  {
    if HasPrefix(s, p) { assert s == p + s[|p|..]; }
    if HasSuffix(s, p) { assert s == s[..|s| - |p|] + p; }
  }
}
