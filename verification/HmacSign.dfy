/**
 The text that hmac_auth signs: the request path and its parameters, decoded, merged with those of the
 body and written out in key order. parseParameters and PercentEncoding::decode are from http_util.cc.
 */
module HmacSign {
  import opened StringOrder
  import opened Strings
  import opened Wrappers

  datatype Param = Param(name: string, value: string)

  // ---- std::map, as the list of its entries in key order ----

  predicate IsMap(m: seq<Param>) { forall i, j | 0 <= i < j < |m| :: Less(m[i].name, m[j].name) }

  /** The mathematical map a list stands for; the first entry of a name counts. */
  function ToMap(m: seq<Param>): map<string, string> {
    if m == [] then map[] else ToMap(m[1..])[m[0].name := m[0].value]
  }

  /** emplace: inserts in key order unless the name is there already. */
  function Emplace(m: seq<Param>, p: Param): (r: seq<Param>)
    requires IsMap(m)
    ensures IsMap(r) && (forall q | q in r :: q in m || q == p)
  {
    if m == [] || Less(p.name, m[0].name) then
      BeforeAll(m, p);
      [p] + m
    else if m[0].name == p.name then m
    else
      LessTotal(p.name, m[0].name);
      var r := Emplace(m[1..], p);
      assert forall q | q in r :: Less(m[0].name, q.name) by {
        assert forall q | q in m[1..] :: Less(m[0].name, q.name) by { Heads(m); }
      }
      [m[0]] + r
  }

  lemma Heads(m: seq<Param>)
    requires IsMap(m) && m != []
    ensures forall q | q in m[1..] :: Less(m[0].name, q.name)
  {
  }

  lemma BeforeAll(m: seq<Param>, p: Param)
    requires IsMap(m) && (m == [] || Less(p.name, m[0].name))
    ensures IsMap([p] + m)
  {
    forall i | 0 <= i < |m| ensures Less(p.name, m[i].name) {
      if i > 0 { LessTransitive(p.name, m[0].name, m[i].name); }
    }
  }

  /** emplace adds the entry exactly if its name is new. */
  lemma {:induction false} EmplaceMap(m: seq<Param>, p: Param)
    requires IsMap(m)
    ensures ToMap(Emplace(m, p)) == if p.name in ToMap(m) then ToMap(m) else ToMap(m)[p.name := p.value]
  {
    if m == [] {
    } else if Less(p.name, m[0].name) {
      BeforeAll(m, p);
      NotBefore(m, p.name);
      assert ([p] + m)[1..] == m;
    } else if m[0].name != p.name {
      EmplaceMap(m[1..], p);
      var r := Emplace(m[1..], p);
      assert ([m[0]] + r)[1..] == r;
    }
  }

  lemma {:induction false} NotBefore(m: seq<Param>, name: string)
    requires IsMap(m) && (m == [] || Less(name, m[0].name))
    ensures name !in ToMap(m)
  {
    if m != [] {
      LessTotal(name, m[0].name);
      if |m| > 1 { LessTransitive(name, m[0].name, m[1].name); }
      NotBefore(m[1..], name);
    }
  }

  /** A map has one list only, so what is written out in list order depends on the map alone. */
  lemma {:induction false} ListOfMap(m: seq<Param>, n: seq<Param>)
    requires IsMap(m) && IsMap(n) && ToMap(m) == ToMap(n)
    ensures m == n
  {
    if m == [] || n == [] {
      assert m == [] <==> ToMap(m) == map[] by { NoEntries(m); }
      assert n == [] <==> ToMap(n) == map[] by { NoEntries(n); }
    } else {
      assert m[0].name in ToMap(m) && n[0].name in ToMap(n);
      LessTotal(m[0].name, n[0].name);
      if Less(m[0].name, n[0].name) { NotBefore(n, m[0].name); }
      if Less(n[0].name, m[0].name) { NotBefore(m, n[0].name); }
      FirstOut(m);
      FirstOut(n);
      ListOfMap(m[1..], n[1..]);
    }
  }

  lemma NoEntries(m: seq<Param>)
    ensures m == [] <==> ToMap(m) == map[]
  {
    if m != [] { assert m[0].name in ToMap(m); }
  }

  lemma {:induction false} FirstOut(m: seq<Param>)
    requires IsMap(m) && m != []
    ensures ToMap(m)[m[0].name] == m[0].value && ToMap(m[1..]) == ToMap(m) - {m[0].name}
  {
    hide Less;
    var t := m[1..];
    assert t != [] ==> Less(m[0].name, t[0].name);
    NotBefore(t, m[0].name);
    AddRemove(ToMap(t), m[0].name, m[0].value);
  }

  lemma AddRemove(a: map<string, string>, k: string, v: string)
    requires k !in a
    ensures a[k := v] - {k} == a
  {
  }

  /** All of a list emplaced one after the other. */
  function EmplaceAll(m: seq<Param>, ps: seq<Param>): (r: seq<Param>)
    requires IsMap(m)
    ensures IsMap(r)
  {
    if ps == [] then m else Emplace(EmplaceAll(m, ps[..|ps| - 1]), ps[|ps| - 1])
  }

  lemma {:induction false} ToMapAppend(ps: seq<Param>, p: Param)
    ensures ToMap(ps + [p]) == if p.name in ToMap(ps) then ToMap(ps) else ToMap(ps)[p.name := p.value]
  {
    if ps != [] {
      assert (ps + [p])[0] == ps[0] && (ps + [p])[1..] == ps[1..] + [p];
      ToMapAppend(ps[1..], p);
    }
  }

  lemma MapSteps(a: map<string, string>, b: map<string, string>, k: string, v: string)
    ensures var x := a + b;
            (if k in x then x else x[k := v]) == (if k in a then a else a[k := v]) + b
    ensures a[k := v] + b == a + if k in b then b else b[k := v]
  {
  }

  /** Emplacing a list only fills in missing names, each with its first value in the list. */
  lemma {:induction false} EmplaceAllMap(m: seq<Param>, ps: seq<Param>)
    requires IsMap(m)
    ensures ToMap(EmplaceAll(m, ps)) == ToMap(ps) + ToMap(m)
  {
    if ps != [] {
      hide ToMap, Emplace, IsMap;
      var n := |ps| - 1;
      var run, p := ps[..n], ps[n];
      assert ps == run + [p];
      EmplaceAllMap(m, run);
      EmplaceMap(EmplaceAll(m, run), p);
      ToMapAppend(run, p);
      MapSteps(ToMap(run), ToMap(m), p.name, p.value);
    }
  }

  predicate DistinctNames(ps: seq<Param>) { forall i, j | 0 <= i < j < |ps| :: ps[i].name != ps[j].name }

  lemma {:induction false} DistinctMap(ps: seq<Param>)
    requires DistinctNames(ps)
    ensures forall p | p in ps :: p.name in ToMap(ps) && ToMap(ps)[p.name] == p.value
    ensures forall name | name in ToMap(ps) :: Param(name, ToMap(ps)[name]) in ps
  {
    if ps != [] {
      DistinctMap(ps[1..]);
      assert ps == [ps[0]] + ps[1..];
      forall name | name in ToMap(ps[1..]) ensures name != ps[0].name {
        var p := Param(name, ToMap(ps[1..])[name]);
        var i :| 0 <= i < |ps| - 1 && ps[1..][i] == p;
        assert ps[i + 1] == p;
      }
    }
  }

  /** Parameters with distinct names make the same map in any order. */
  lemma PermutedMap(ps: seq<Param>, qs: seq<Param>)
    requires DistinctNames(ps) && DistinctNames(qs) && multiset(ps) == multiset(qs)
    ensures ToMap(ps) == ToMap(qs)
  {
    DistinctMap(ps);
    DistinctMap(qs);
    hide ToMap, DistinctNames;
    forall p ensures p in ps <==> p in qs { assert p in ps <==> p in multiset(ps); }
    Within(ps, qs);
    Within(qs, ps);
  }

  lemma Within(ps: seq<Param>, qs: seq<Param>)
    requires forall p | p in ps :: p in qs
    requires forall p | p in qs :: p.name in ToMap(qs) && ToMap(qs)[p.name] == p.value
    requires forall name | name in ToMap(ps) :: Param(name, ToMap(ps)[name]) in ps
    ensures forall name | name in ToMap(ps) :: name in ToMap(qs) && ToMap(qs)[name] == ToMap(ps)[name]
  {
  }

  // ---- PercentEncoding::decode ----

  /** The bytes a C++ char can hold; arithmetic on one keeps the low eight bits. */
  function Low(n: int): char { (n % 256) as char }

  function Upper(c: char): char { if 'a' <= c <= 'z' then (c as int - 32) as char else c }

  /** The value of a hex digit; any other char goes through the letter branch as it does in the code. */
  function Hex(c: char): int { if '0' <= c <= '9' then c as int - 48 else Upper(c) as int - 65 + 10 }

  function Decode(s: string): string {
    if s == "" then ""
    else if s[0] == '%' && 2 < |s| then [Low(Low(16 * Hex(s[1])) as int + Hex(s[2]))] + Decode(s[3..])
    else [s[0]] + Decode(s[1..])
  }

  lemma DecodeFrom(s: string, i: nat)
    requires i < |s|
    ensures var long := s[i] == '%' && i + 2 < |s|;
            Decode(s[i..]) == (if long then [Low(Low(16 * Hex(s[i + 1])) as int + Hex(s[i + 2]))] else [s[i]])
                              + Decode(s[if long then i + 3 else i + 1..])
  {
  }

  method DecodeLoop(encoded: string) returns (decoded: string)
    ensures decoded == Decode(encoded)
  {
    hide Low, Hex;
    decoded := "";
    var i := 0;
    while i < |encoded|
      invariant 0 <= i <= |encoded| && decoded + Decode(encoded[i..]) == Decode(encoded)
    {
      hide Decode;
      DecodeFrom(encoded, i);
      var ch := encoded[i];
      if ch == '%' && i + 2 < |encoded| {
        ch := Low(16 * Hex(encoded[i + 1]));
        ch := Low(ch as int + Hex(encoded[i + 2]));
        i := i + 2;
      }
      i := i + 1;
      ConcatAssoc(decoded, [ch], Decode(encoded[i..]));
      decoded := decoded + [ch];
    }
  }

  const HEX_DIGITS := "0123456789ABCDEF"
  const LOWER_DIGITS := "0123456789abcdef"

  /**
   Percent-encoding as section 2.1 of RFC 3986 defines it, of the bytes that `escape` picks and of '%', with
   hex digits of either case.
   */
  function Escape(s: string, escape: char -> bool, digits: string): string
    requires digits in {HEX_DIGITS, LOWER_DIGITS}
    requires forall i | 0 <= i < |s| :: s[i] as int < 256
  {
    if s == "" then ""
    else
      (if escape(s[0]) || s[0] == '%' then ['%', digits[s[0] as int / 16], digits[s[0] as int % 16]] else [s[0]])
      + Escape(s[1..], escape, digits)
  }

  /** An escape sequence decodes to its byte. */
  lemma {:induction false} DecodeEscaped(c: char, digits: string, tail: string)
    requires digits in {HEX_DIGITS, LOWER_DIGITS} && c as int < 256
    ensures var e := ['%', digits[c as int / 16], digits[c as int % 16]] + tail;
            Decode(e) == [c] + Decode(tail)
  {
    var hi, lo := c as int / 16, c as int % 16;
    var e := ['%', digits[hi], digits[lo]] + tail;
    assert e[0] == '%' && e[1] == digits[hi] && e[2] == digits[lo] && e[3..] == tail;
    hide Hex, Low;
    HexDigit(hi);
    HexDigit(lo);
    LowBack(c);
  }

  lemma LowBack(c: char)
    requires c as int < 256
    ensures Low(Low(16 * (c as int / 16)) as int + c as int % 16) == c
  {
  }

  lemma HexDigit(n: nat)
    requires n < 16
    ensures Hex(HEX_DIGITS[n]) == n && Hex(LOWER_DIGITS[n]) == n
  {
  }

  /** Decoding undoes percent-encoding, whichever bytes were escaped and with hex digits of either case. */
  lemma {:induction false} DecodeUndoesEscape(s: string, escape: char -> bool, digits: string)
    requires digits in {HEX_DIGITS, LOWER_DIGITS} && forall i | 0 <= i < |s| :: s[i] as int < 256
    ensures Decode(Escape(s, escape, digits)) == s
  {
    if s != "" {
      hide Hex, Low;
      var tail := Escape(s[1..], escape, digits);
      DecodeUndoesEscape(s[1..], escape, digits);
      assert s == [s[0]] + s[1..];
      if escape(s[0]) || s[0] == '%' {
        DecodeEscaped(s[0], digits, tail);
      } else {
        assert ([s[0]] + tail)[1..] == tail;
      }
    }
  }

  /** What is no hex digit is computed with all the same, in eight bits; a sequence cut short stays as it is. */
  lemma NotHexExample()
    ensures Decode("%g1") == "\U{01}" && Decode("%/0") == "\U{80}" && Decode("%zz") == "\U{53}" && Decode("%0{") == "D"
    ensures Decode("%4") == "%4" && Decode("%") == "%"
  {
    hide Low, Hex;
    DecodeThree("%g1");
    DecodeThree("%/0");
    DecodeThree("%zz");
    DecodeThree("%0{");
    NotHexBytes();
    assert Decode("4") == "4" && "%4"[1..] == "4" && "%"[1..] == "";
  }

  lemma DecodeThree(s: string)
    requires |s| == 3 && s[0] == '%'
    ensures Decode(s) == [Low(Low(16 * Hex(s[1])) as int + Hex(s[2]))]
  {
    assert s[3..] == "";
  }

  lemma NotHexBytes()
    ensures Low(Low(16 * Hex('g')) as int + Hex('1')) == '\U{01}'
    ensures Low(Low(16 * Hex('/')) as int + Hex('0')) == '\U{80}'
    ensures Low(Low(16 * Hex('z')) as int + Hex('z')) == '\U{53}' && Low(Low(16 * Hex('0')) as int + Hex('{')) == 'D'
  {
  }

  // ---- parseParameters ----

  /** One piece between '&'. A piece without '=' is a name, and is not decoded. */
  function ParamOf(piece: string, decode: bool): Param {
    var equal := IndexAny(piece, '=');
    if equal == -1 then Param(piece, "")
    else
      var name, value := piece[..equal], piece[equal + 1..];
      if decode then Param(Decode(name), Decode(value)) else Param(name, value)
  }

  /** A piece is a name, or a name and a value at its first '='; only then both are decoded. */
  lemma PieceMeans(name: string, value: string, decode: bool)
    requires '=' !in name
    ensures ParamOf(name, decode) == Param(name, "")
    ensures ParamOf(name + "=" + value, decode)
            == if decode then Param(Decode(name), Decode(value)) else Param(name, value)
  {
    hide Decode;
    var piece := name + "=" + value;
    assert forall j: nat | j < |name| :: piece[j] == name[j];
    assert piece[|name|] == '=';
    IndexAnyIs(piece, '=', |name|);
    IndexAnyNone(name, '=');
    assert piece[..|name|] == name && piece[|name| + 1..] == value;
  }

  /** The end of the first piece. */
  function PieceEnd(data: string): (end: nat)
    ensures end <= |data|
  {
    var i := IndexAny(data, '&');
    if i == -1 then |data| else i
  }

  function ParamList(data: string, decode: bool): seq<Param>
    decreases |data|
  {
    if data == "" then []
    else
      var end := PieceEnd(data);
      [ParamOf(data[..end], decode)] + (if end == |data| then [] else ParamList(data[end + 1..], decode))
  }

  function Parse(data: string, decode: bool): (m: seq<Param>)
    ensures IsMap(m)
  {
    EmplaceAll([], ParamList(data, decode))
  }

  lemma {:induction false} EmplaceFirst(m: seq<Param>, p: Param, ps: seq<Param>)
    requires IsMap(m)
    ensures EmplaceAll(m, [p] + ps) == EmplaceAll(Emplace(m, p), ps)
  {
    hide Emplace, IsMap, EmplaceAll;
    EmplaceAllMap(m, [p] + ps);
    EmplaceAllMap(Emplace(m, p), ps);
    EmplaceMap(m, p);
    MapSteps(ToMap(ps), ToMap(m), p.name, p.value);
    assert ([p] + ps)[1..] == ps;
    ListOfMap(EmplaceAll(m, [p] + ps), EmplaceAll(Emplace(m, p), ps));
  }

  function Cons(p: Param, ps: seq<Param>): seq<Param> { [p] + ps }

  /** The parameters from an index on, which may be one past the end. */
  function ParamsFrom(data: string, from: nat, decode: bool): seq<Param> {
    if from <= |data| then ParamList(data[from..], decode) else []
  }

  lemma ParamsFromStep(data: string, from: nat, decode: bool)
    requires from < |data|
    ensures var end := from + PieceEnd(data[from..]);
            && end <= |data|
            && ParamsFrom(data, from, decode)
               == Cons(ParamOf(data[from..end], decode), ParamsFrom(data, end + 1, decode))
  {
    hide PieceEnd, ParamOf, ParamList, ParamsFrom, Cons;
    var rest := data[from..];
    ParamListStep(rest, decode);
    ParamsFromTail(data, from, 0, decode);
    ParamsFromTail(data, from, PieceEnd(rest) + 1, decode);
    assert rest[..PieceEnd(rest)] == data[from..from + PieceEnd(rest)];
  }

  lemma ParamsFromTail(data: string, from: nat, m: nat, decode: bool)
    requires from < |data|
    ensures ParamsFrom(data[from..], m, decode) == ParamsFrom(data, from + m, decode)
    ensures m == 0 ==> ParamsFrom(data[from..], m, decode) == ParamList(data[from..], decode)
  {
  }

  lemma ParamListStep(data: string, decode: bool)
    requires data != ""
    ensures var end := PieceEnd(data);
            ParamList(data, decode) == Cons(ParamOf(data[..end], decode), ParamsFrom(data, end + 1, decode))
  {
  }

  method ParseParam(param: string, decode: bool) returns (p: Param)
    ensures p == ParamOf(param, decode)
  {
    var equal := IndexAny(param, '=');
    if equal == -1 {
      return Param(param, "");
    }
    var name, value := param[..equal], param[equal + 1..];
    if decode {
      name := DecodeLoop(name);
      value := DecodeLoop(value);
    }
    return Param(name, value);
  }

  method ParseParameters(data: string, start: nat, decode: bool) returns (params: seq<Param>)
    requires start <= |data|
    ensures params == Parse(data[start..], decode)
  {
    hide ParamsFrom, ParamOf, Emplace, EmplaceAll, IsMap;
    params := [];
    var from := start;
    ghost var whole := Parse(data[start..], decode);
    ParseBounds(data, start, decode);
    while from < |data|
      invariant start <= from <= |data| + 1 && IsMap(params)
      invariant EmplaceAll(params, ParamsFrom(data, from, decode)) == whole
    {
      ParamsFromStep(data, from, decode);
      var end := IndexAny(data[from..], '&');
      end := if end == -1 then |data| else from + end;
      var p := ParseParam(data[from..end], decode);
      EmplaceFirst(params, p, ParamsFrom(data, end + 1, decode));
      params := Emplace(params, p);
      from := end + 1;
    }
    assert EmplaceAll(params, []) == params by { EmplaceNone(params); }
  }

  lemma ParseBounds(data: string, start: nat, decode: bool)
    requires start <= |data|
    ensures IsMap([]) && EmplaceAll([], ParamsFrom(data, start, decode)) == Parse(data[start..], decode)
    ensures forall from: nat | from >= |data| :: ParamsFrom(data, from, decode) == []
  {
  }

  lemma EmplaceNone(m: seq<Param>)
    requires IsMap(m)
    ensures EmplaceAll(m, []) == m
  {
  }

  // ---- The text to sign ----

  function Entry(p: Param): string { p.name + "=" + p.value }

  function Query(m: seq<Param>): string {
    if m == [] then ""
    else if |m| == 1 then Entry(m[0])
    else Entry(m[0]) + ("&" + Query(m[1..]))
  }

  function UrlPath(path: string): string {
    var i := IndexAny(path, '?');
    if i == -1 then path else path[..i]
  }

  /** The parameters of a path, decoded or not. */
  function PathParams(path: string, decode: bool): (m: seq<Param>)
    ensures IsMap(m)
  {
    var i := IndexAny(path, '?');
    if i == -1 then [] else Parse(path[i + 1..], decode)
  }

  function Signed(urlPath: string, m: seq<Param>): string {
    urlPath + if m == [] then "" else "?" + Query(m)
  }

  /** All parameters: those of the path, and of the body where the path has none of the name. */
  function AllParams(path: string, body: Option<seq<Param>>): (m: seq<Param>)
    ensures IsMap(m)
  {
    EmplaceAll(PathParams(path, true), if body.Some? then body.value else [])
  }

  /** Body parameters only fill in names that the path does not have. */
  lemma BodyFillsIn(path: string, body: seq<Param>)
    ensures ToMap(AllParams(path, Some(body))) == ToMap(body) + ToMap(PathParams(path, true))
  {
    EmplaceAllMap(PathParams(path, true), body);
  }

  /** The loop that writes the parameters out behind what is written already. */
  method AppendQuery(text: string, params: seq<Param>) returns (out: string)
    requires params != []
    ensures out == text + Query(params)
  {
    out := text;
    var it := 0;
    while it < |params| - 1
      invariant 0 <= it < |params| && out + Query(params[it..]) == text + Query(params)
    {
      ghost var rest := params[it..];
      var entry := Entry(params[it]);
      assert rest[1..] == params[it + 1..] && Query(rest) == entry + ("&" + Query(rest[1..]));
      ConcatAssoc(out, entry, "&" + Query(rest[1..]));
      ConcatAssoc(out + entry, "&", Query(rest[1..]));
      out := out + entry + "&";
      it := it + 1;
    }
    assert params[it..] == [params[it]];
    out := out + Entry(params[it]);
  }

  method AllParamsLoop(path: string, body: Option<seq<Param>>) returns (params: seq<Param>)
    ensures params == AllParams(path, body)
  {
    params := [];
    var question := IndexAny(path, '?');
    if question != -1 {
      params := ParseParameters(path, question + 1, true);
    }
    ghost var own := params;
    if body.Some? {
      for i := 0 to |body.value|
        invariant IsMap(params) && params == EmplaceAll(own, body.value[..i])
      {
        assert body.value[..i + 1][..i] == body.value[..i];
        params := Emplace(params, body.value[i]);
      }
      assert body.value[..|body.value|] == body.value;
    }
  }

  method GetStringToSignWithParam(strToSign: string, path: string, body: Option<seq<Param>>) returns (out: string)
    ensures out == strToSign + Signed(UrlPath(path), AllParams(path, body))
  {
    hide AllParams, Query;
    var params := AllParamsLoop(path, body);
    var question := IndexAny(path, '?');
    var urlPath := if question == -1 then path else path[..question];
    out := strToSign + urlPath;
    if params == [] {
      return;
    }
    out := AppendQuery(out + "?", params);
    ConcatAssoc(strToSign + urlPath, "?", Query(params));
    ConcatAssoc(strToSign, urlPath, "?" + Query(params));
  }

  // ---- What the text depends on, and what it determines ----

  /**
   The text depends on the path in front of '?' and on the map of the parameters only: any order of
   parameters with distinct names, in the path and in the body, gives the same text.
   */
  lemma {:induction false} SignedIsCanonical(
    urlPath: string, ps: seq<Param>, qs: seq<Param>, body: seq<Param>, other: seq<Param>)
    requires DistinctNames(ps) && DistinctNames(qs) && multiset(ps) == multiset(qs)
    requires DistinctNames(body) && DistinctNames(other) && multiset(body) == multiset(other)
    ensures Signed(urlPath, EmplaceAll(EmplaceAll([], ps), body))
            == Signed(urlPath, EmplaceAll(EmplaceAll([], qs), other))
  {
    hide EmplaceAll, Signed, IsMap, DistinctNames;
    PermutedMap(ps, qs);
    PermutedMap(body, other);
    EmptyIsMap();
    var m, n := EmplaceAll([], ps), EmplaceAll([], qs);
    EmplaceAllMap([], ps);
    EmplaceAllMap([], qs);
    EmplaceAllMap(m, body);
    EmplaceAllMap(n, other);
    ListOfMap(EmplaceAll(m, body), EmplaceAll(n, other));
  }

  lemma EmptyIsMap()
    ensures IsMap([])
  {
  }

  predicate CleanName(name: string) { '&' !in name && '=' !in name }
  predicate CleanParam(p: Param) { CleanName(p.name) && '&' !in p.value }
  predicate Clean(m: seq<Param>) { forall p | p in m :: CleanParam(p) }

  lemma IndexAnyIs(s: string, c: char, k: nat)
    requires k < |s| && s[k] == c && forall j: nat | j < k :: s[j] != c
    ensures IndexAny(s, c) == k
  {
  }

  lemma IndexAnyNone(s: string, c: char)
    requires c !in s
    ensures IndexAny(s, c) == -1
  {
  }

  /** One entry as it is written, parsed. */
  lemma EntryParses(p: Param, decode: bool)
    requires CleanParam(p)
    ensures ParamOf(Entry(p), decode) == if decode then Param(Decode(p.name), Decode(p.value)) else p
    ensures '&' !in Entry(p) && Entry(p) != ""
  {
    hide Decode;
    var e := Entry(p);
    assert forall j: nat | j < |p.name| :: e[j] == p.name[j];
    IndexAnyIs(e, '=', |p.name|);
    assert e[..|p.name|] == p.name && e[|p.name| + 1..] == p.value;
  }

  /** Names and values decoded. */
  function Decoded(m: seq<Param>): (n: seq<Param>)
    ensures |n| == |m|
  {
    if m == [] then [] else [Param(Decode(m[0].name), Decode(m[0].value))] + Decoded(m[1..])
  }

  lemma {:induction false} QueryParses(m: seq<Param>, decode: bool)
    requires Clean(m)
    ensures ParamList(Query(m), decode) == if decode then Decoded(m) else m
  {
    if m == [] { return; }
    QueryOf(m);
    CleanTail(m);
    hide ParamOf, PieceEnd, ParamList, Entry, CleanParam, ParamsFrom, Clean, Query, Decode;
    var e, t := Entry(m[0]), m[1..];
    EntryParses(m[0], decode);
    if |m| == 1 {
      LastPiece(e);
      OnePiece(e, decode);
    } else {
      QueryParses(t, decode);
      FirstPiece(e, Query(t));
      OneMorePiece(Query(m), e, Query(t), decode);
    }
  }

  lemma QueryOf(m: seq<Param>)
    requires m != []
    ensures Query(m) == if |m| == 1 then Entry(m[0]) else Entry(m[0]) + ("&" + Query(m[1..]))
    ensures m == [m[0]] + m[1..] && (|m| == 1 ==> m == [m[0]])
  {
  }

  lemma CleanTail(m: seq<Param>)
    requires Clean(m) && m != []
    ensures CleanParam(m[0]) && Clean(m[1..])
  {
  }

  lemma {:induction false} OnePiece(e: string, decode: bool)
    requires e != "" && PieceEnd(e) == |e|
    ensures ParamList(e, decode) == [ParamOf(e, decode)]
  {
    hide ParamOf;
    assert e[..|e|] == e;
  }

  lemma OneMorePiece(data: string, e: string, q: string, decode: bool)
    requires PieceEnd(data) == |e| < |data| && data[..|e|] == e && data[|e| + 1..] == q
    ensures ParamList(data, decode) == [ParamOf(e, decode)] + ParamList(q, decode)
  {
  }

  lemma LastPiece(e: string)
    requires '&' !in e
    ensures PieceEnd(e) == |e|
  {
  }

  lemma FirstPiece(e: string, q: string)
    requires '&' !in e
    ensures var whole := e + ("&" + q);
            PieceEnd(whole) == |e| < |whole| && whole[..|e|] == e && whole[|e| + 1..] == q
  {
    var whole := e + ("&" + q);
    assert forall j: nat | j < |e| :: whole[j] == e[j];
    IndexAnyIs(whole, '&', |e|);
  }

  lemma {:induction false} EmplaceSorted(m: seq<Param>)
    requires IsMap(m)
    ensures EmplaceAll([], m) == m
  {
    EmplaceAllMap([], m);
    ListOfMap(EmplaceAll([], m), m);
  }

  /** What parsing without decoding gives has clean names and values. */
  lemma {:induction false} ParsedIsClean(data: string)
    ensures Clean(ParamList(data, false))
    decreases |data|
  {
    if data != "" {
      ParamListStep(data, false);
      PieceFree(data);
      var end := PieceEnd(data);
      if end < |data| { ParsedIsClean(data[end + 1..]); }
      CleanFrom(data, end + 1);
      hide ParamList, ParamOf, CleanParam, PieceEnd, Clean, ParamsFrom;
      PieceIsClean(data[..end]);
      CleanCons(ParamOf(data[..end], false), ParamsFrom(data, end + 1, false));
    } else {
      assert ParamList(data, false) == [];
    }
  }

  lemma CleanFrom(data: string, from: nat)
    requires from <= |data| ==> Clean(ParamList(data[from..], false))
    ensures Clean(ParamsFrom(data, from, false))
  {
  }

  lemma CleanCons(p: Param, m: seq<Param>)
    requires CleanParam(p) && Clean(m)
    ensures Clean([p] + m)
  {
  }

  lemma PieceFree(data: string)
    ensures '&' !in data[..PieceEnd(data)]
  {
  }

  lemma PieceIsClean(piece: string)
    requires '&' !in piece
    ensures CleanParam(ParamOf(piece, false))
  {
  }

  lemma {:induction false} EmplaceAllClean(m: seq<Param>, ps: seq<Param>)
    requires IsMap(m) && Clean(m) && Clean(ps)
    ensures Clean(EmplaceAll(m, ps))
  {
    if ps != [] {
      var n := |ps| - 1;
      EmplaceAllClean(m, ps[..n]);
      assert CleanParam(ps[n]);
    }
  }

  lemma {:induction false} SignedQuery(urlPath: string, m: seq<Param>, decode: bool)
    requires '?' !in urlPath
    ensures UrlPath(Signed(urlPath, m)) == urlPath
    ensures PathParams(Signed(urlPath, m), decode) == if m == [] then [] else Parse(Query(m), decode)
  {
    hide Query, Parse;
    var s := Signed(urlPath, m);
    if m == [] {
      IndexAnyNone(urlPath, '?');
    } else {
      assert s == urlPath + ("?" + Query(m));
      assert forall j: nat | j < |urlPath| :: s[j] == urlPath[j];
      assert s[|urlPath|] == '?';
      IndexAnyIs(s, '?', |urlPath|);
      assert s[..|urlPath|] == urlPath && s[|urlPath| + 1..] == Query(m);
    }
  }

  /**
   Parsing the text again without decoding gives the parameters back exactly if no name holds '&' or '='
   and no value holds '&'.
   */
  lemma ReparsesIff(urlPath: string, m: seq<Param>)
    requires IsMap(m) && '?' !in urlPath
    ensures PathParams(Signed(urlPath, m), false) == m <==> Clean(m)
  {
    SignedQuery(urlPath, m, false);
    if m == [] { return; }
    if Clean(m) {
      QueryParses(m, false);
      EmplaceSorted(m);
    }
    ParsedIsClean(Query(m));
    EmplaceAllClean([], ParamList(Query(m), false));
  }

  /** So texts signed for clean parameters are equal only if the path and all the parameters are. */
  lemma SignedDetermines(urlPath: string, m: seq<Param>, other: string, n: seq<Param>)
    requires IsMap(m) && IsMap(n) && Clean(m) && Clean(n) && '?' !in urlPath && '?' !in other
    requires Signed(urlPath, m) == Signed(other, n)
    ensures urlPath == other && m == n
  {
    ReparsesIff(urlPath, m);
    ReparsesIff(other, n);
    SignedQuery(urlPath, m, false);
    SignedQuery(other, n, false);
  }

  // ---- Which texts stand for more than one map ----

  /** The path and map given second have the text of the ones given first. */
  predicate SameText(urlPath: string, m: seq<Param>, other: string, n: seq<Param>) {
    IsMap(n) && '?' !in other && Signed(other, n) == Signed(urlPath, m)
  }

  /** The one parameter whose entry is this text, cut at one of its '='. */
  function CutAt(text: string, k: nat): (p: Param)
    requires k < |text| && text[k] == '='
    ensures Entry(p) == text && |p.name| == k
  {
    Param(text[..k], text[k + 1..])
  }

  lemma SingleQuery(p: Param)
    ensures Query([p]) == Entry(p) && IsMap([p])
  {
  }

  /** A query has an '=' right behind its first name, and another one later if there are more entries. */
  lemma QueryEquals(m: seq<Param>)
    requires m != []
    ensures var q, k := Query(m), |m[0].name|;
            && k < |q| && q[k] == '='
            && (|m| >= 2 ==> exists j | k < j < |q| :: q[j] == '=')
  {
    QueryOf(m);
    var q, e := Query(m), Entry(m[0]);
    assert e[|m[0].name|] == '=' && q[|m[0].name|] == e[|m[0].name|];
    if |m| >= 2 {
      var t := m[1..];
      QueryOf(t);
      var j := |e| + 1 + |t[0].name|;
      assert Entry(t[0])[|t[0].name|] == '=' && Query(t)[|t[0].name|] == '=';
      assert q == e + ("&" + Query(t)) && q[j] == Query(t)[|t[0].name|];
    }
  }

  /** Two pairs of path and parameters with one text have one path and one query. */
  lemma SameParts(urlPath: string, m: seq<Param>, other: string, n: seq<Param>)
    requires '?' !in urlPath && SameText(urlPath, m, other, n)
    ensures other == urlPath && (n == [] <==> m == []) && Query(n) == Query(m)
  {
    hide Query, IsMap, UrlPath, PathParams, Parse;
    SignedQuery(urlPath, m, false);
    SignedQuery(other, n, false);
    var s := Signed(urlPath, m);
    QueryBehind(urlPath, m);
    QueryBehind(other, n);
    assert m == [] ==> Query(m) == "" by { NoQuery(); }
    assert n == [] ==> Query(n) == "" by { NoQuery(); }
  }

  lemma QueryBehind(urlPath: string, m: seq<Param>)
    ensures m == [] ==> Signed(urlPath, m) == urlPath
    ensures m != [] ==> |Signed(urlPath, m)| > |urlPath| && Signed(urlPath, m)[|urlPath| + 1..] == Query(m)
  {
    hide Query;
  }

  lemma NoQuery()
    ensures Query([]) == ""
  {
  }

  /** A text that holds one '=' is the query of one list only. */
  lemma OneEquals(m: seq<Param>, n: seq<Param>)
    requires |m| == 1 && '=' !in m[0].name && '=' !in m[0].value
    requires n != [] && Query(n) == Query(m)
    ensures n == m
  {
    hide Query;
    SingleQuery(m[0]);
    QueryEquals(n);
    var q, k := Query(m), |m[0].name|;
    assert m == [m[0]];
    assert forall j | 0 <= j < |q| && q[j] == '=' :: j == k by {
      forall j | 0 <= j < |q| && j != k ensures q[j] != '=' {
        assert q[j] == if j < k then m[0].name[j] else m[0].value[j - k - 1];
      }
    }
    assert |n| == 1 && n == [n[0]];
    SingleQuery(n[0]);
    assert n[0].name == q[..k] == m[0].name && n[0].value == q[k + 1..] == m[0].value;
  }

  /** Two entries or more, or a single one with another '='. */
  predicate Ambiguous(m: seq<Param>) {
    |m| >= 2 || (|m| == 1 && ('=' in m[0].name || '=' in m[0].value))
  }

  /** An ambiguous map has the text of another one, which has a single entry. */
  lemma SecondMap(urlPath: string, m: seq<Param>) returns (n: seq<Param>)
    requires Ambiguous(m) && '?' !in urlPath
    ensures SameText(urlPath, m, urlPath, n) && n != m
    ensures ByteParams(m) ==> ByteParams(n)
  {
    hide Query, SameText, ByteParams;
    QueryEquals(m);
    var k := |m[0].name|;
    if |m| == 1 {
      var p := m[0];
      SingleQuery(p);
      assert m == [p];
      k := if '=' in p.name then IndexAny(p.name, '=') else |p.name| + 1 + IndexAny(p.value, '=');
      assert Entry(p)[k] == '=' && k != |p.name|;
    }
    Recut(urlPath, m, k);
    n := [CutAt(Query(m), k)];
    if ByteParams(m) { CutBytes(m, k); }
  }

  lemma {:induction false} QueryBytes(m: seq<Param>)
    requires ByteParams(m)
    ensures IsBytes(Query(m))
  {
    if m != [] {
      QueryOf(m);
      assert m[0] in m;
      if |m| > 1 { QueryBytes(m[1..]); }
    }
  }

  lemma CutBytes(m: seq<Param>, k: nat)
    requires ByteParams(m) && k < |Query(m)| && Query(m)[k] == '='
    ensures ByteParams([CutAt(Query(m), k)])
  {
    hide Query;
    QueryBytes(m);
  }

  /** A map that is not ambiguous is the only one with its text. */
  lemma OnlyMap(urlPath: string, m: seq<Param>, other: string, n: seq<Param>)
    requires !Ambiguous(m) && '?' !in urlPath && SameText(urlPath, m, other, n)
    ensures other == urlPath && n == m
  {
    hide Query, SameText;
    SameParts(urlPath, m, other, n);
    if m != [] { OneEquals(m, n); }
  }

  /**
   The text of a map, for any path, is the text of another path or map exactly if the map has two
   entries or more, or a single one with '=' in its name or value.
   */
  lemma SecondMapIff(urlPath: string, m: seq<Param>)
    requires IsMap(m) && '?' !in urlPath
    ensures (exists other, n :: SameText(urlPath, m, other, n) && (other, n) != (urlPath, m)) <==> Ambiguous(m)
  {
    hide Ambiguous, SameText, IsMap;
    if Ambiguous(m) {
      var n := SecondMap(urlPath, m);
    } else {
      forall other, n | SameText(urlPath, m, other, n) ensures (other, n) == (urlPath, m) {
        OnlyMap(urlPath, m, other, n);
      }
    }
  }

  /** The query as a single entry, cut at one of its '='. */
  lemma Recut(urlPath: string, m: seq<Param>, k: nat)
    requires m != [] && '?' !in urlPath && k < |Query(m)| && Query(m)[k] == '='
    ensures SameText(urlPath, m, urlPath, [CutAt(Query(m), k)])
  {
    hide Query;
    SingleQuery(CutAt(Query(m), k));
  }

  /** What a client may send for a parameter: separators are percent-encoded. */
  predicate Separator(c: char) { c == '&' || c == '=' }

  predicate IsBytes(s: string) { forall i | 0 <= i < |s| :: s[i] as int < 256 }

  ghost predicate ByteParams(m: seq<Param>) { forall p | p in m :: IsBytes(p.name) && IsBytes(p.value) }

  function Sent(m: seq<Param>): (n: seq<Param>)
    requires ByteParams(m)
    ensures |n| == |m|
  {
    if m == [] then []
    else [Param(Escape(m[0].name, Separator, HEX_DIGITS), Escape(m[0].value, Separator, HEX_DIGITS))] + Sent(m[1..])
  }

  lemma {:induction false} EscapedIsClean(s: string)
    requires IsBytes(s)
    ensures var e := Escape(s, Separator, HEX_DIGITS); '&' !in e && '=' !in e
  {
    if s != "" { EscapedIsClean(s[1..]); }
  }

  /** Percent-encoded parameters are clean, and decode to the parameters. */
  lemma {:induction false} SentDecodes(m: seq<Param>)
    requires ByteParams(m)
    ensures Clean(Sent(m)) && Decoded(Sent(m)) == m
  {
    if m != [] {
      hide Escape, Decode, IsBytes;
      var p := m[0];
      EscapedIsClean(p.name);
      EscapedIsClean(p.value);
      DecodesBack(p.name);
      DecodesBack(p.value);
      SentDecodes(m[1..]);
      assert m == [p] + m[1..];
      assert Sent(m)[1..] == Sent(m[1..]);
    }
  }

  lemma DecodesBack(s: string)
    requires IsBytes(s)
    ensures Decode(Escape(s, Separator, HEX_DIGITS)) == s
  {
    DecodeUndoesEscape(s, Separator, HEX_DIGITS);
  }

  /** So every map of byte strings is the parameters of some request, with any path in front. */
  lemma SentArrives(urlPath: string, m: seq<Param>)
    requires IsMap(m) && ByteParams(m) && '?' !in urlPath
    ensures var path := Signed(urlPath, Sent(m)); UrlPath(path) == urlPath && AllParams(path, None) == m
  {
    hide Sent, Query, Clean, Decoded, IsMap, EmplaceAll, ByteParams;
    var n := Sent(m);
    SignedQuery(urlPath, n, true);
    SentDecodes(m);
    QueryParses(n, true);
    EmplaceSorted(m);
    EmplaceNone(m);
  }

  /** And ambiguous maps are exactly those whose text is signed for another request as well. */
  lemma SecondRequestIff(urlPath: string, m: seq<Param>)
    requires IsMap(m) && ByteParams(m) && '?' !in urlPath
    ensures (exists path, body ::
               && Signed(UrlPath(path), AllParams(path, body)) == Signed(urlPath, m)
               && (UrlPath(path), AllParams(path, body)) != (urlPath, m))
            <==> Ambiguous(m)
  {
    hide Ambiguous, IsMap, ByteParams, AllParams, UrlPath, Signed;
    if Ambiguous(m) {
      var n := SecondMap(urlPath, m);
      SentArrives(urlPath, n);
      assert Signed(UrlPath(Signed(urlPath, Sent(n))), AllParams(Signed(urlPath, Sent(n)), None)) == Signed(urlPath, m);
    } else {
      forall path, body | Signed(UrlPath(path), AllParams(path, body)) == Signed(urlPath, m)
        ensures (UrlPath(path), AllParams(path, body)) == (urlPath, m)
      {
        NoQuestion(path);
        OnlyMap(urlPath, m, UrlPath(path), AllParams(path, body));
      }
    }
  }

  lemma NoQuestion(path: string)
    ensures '?' !in UrlPath(path)
  {
  }

  /** One text for two requests: a=b is the name in one of them, b=c the value in the other. */
  lemma SameTextExample()
    ensures var p, q := "/p?a%3Db=c", "/p?a=b=c";
            && AllParams(p, None) == [Param("a=b", "c")] && AllParams(q, None) == [Param("a", "b=c")]
            && Signed(UrlPath(p), AllParams(p, None)) == Signed(UrlPath(q), AllParams(q, None)) == "/p?a=b=c"
  {
    hide AllParams, Decode, Signed, UrlPath;
    DecodeExample();
    OneArrives("/p", Param("a%3Db", "c"));
    OneArrives("/p", Param("a", "b=c"));
    SignedOne("/p", Param("a%3Db", "c"), "/p?a%3Db=c");
    SignedOne("/p", Param("a=b", "c"), "/p?a=b=c");
    SignedOne("/p", Param("a", "b=c"), "/p?a=b=c");
  }

  lemma SignedOne(urlPath: string, p: Param, text: string)
    requires urlPath + "?" + Entry(p) == text
    ensures Signed(urlPath, [p]) == text
  {
    SingleQuery(p);
  }

  lemma OneArrives(urlPath: string, p: Param)
    requires CleanParam(p) && '?' !in urlPath
    ensures var path := Signed(urlPath, [p]);
            && UrlPath(path) == urlPath
            && AllParams(path, None) == [Param(Decode(p.name), Decode(p.value))]
  {
    hide Decode, Query, EmplaceAll, IsMap;
    var m, n := [p], [Param(Decode(p.name), Decode(p.value))];
    SignedQuery(urlPath, m, true);
    QueryParses(m, true);
    assert Decoded(m) == n;
    SingleQuery(n[0]);
    EmplaceSorted(n);
    EmplaceNone(n);
  }

  lemma DecodeExample()
    ensures Decode("a") == "a" && Decode("c") == "c" && Decode("b=c") == "b=c" && Decode("a%3Db") == "a=b"
  {
    assert Hex('3') == 3 && Hex('D') == 13 && Low(Low(48) as int + 13) == '=';
    assert "a%3Db"[1..][3..] == "b";
  }

  /** Of two parameters the one with the smaller decoded name is written first, wherever it stands in the path. */
  lemma SmallerFirst(urlPath: string, p: Param, q: Param)
    requires CleanParam(p) && CleanParam(q) && '?' !in urlPath && Less(Decode(p.name), Decode(q.name))
    ensures var path := Signed(urlPath, [q, p]);
            var a, b := Param(Decode(p.name), Decode(p.value)), Param(Decode(q.name), Decode(q.value));
            && UrlPath(path) == urlPath && AllParams(path, None) == [a, b]
            && Signed(urlPath, [a, b]) == urlPath + "?" + Entry(a) + "&" + Entry(b)
  {
    hide Decode, Less, Query, Parse, PathParams, AllParams, UrlPath, Clean;
    var m, n := [q, p], [Param(Decode(p.name), Decode(p.value)), Param(Decode(q.name), Decode(q.value))];
    TwoDecoded(q, p);
    TwoClean(q, p);
    SignedQuery(urlPath, m, true);
    assert Parse(Query(m), true) == n by {
      hide Query, CleanParam;
      QueryParses(m, true);
      EmplaceTwo(n[1], n[0]);
      ParseIs(Query(m), true);
    }
    NoBody(Signed(urlPath, m));
    TwoEntries(n);
  }

  lemma TwoClean(p: Param, q: Param)
    requires CleanParam(p) && CleanParam(q)
    ensures Clean([p, q])
  {
  }

  lemma ParseIs(data: string, decode: bool)
    ensures IsMap([]) && Parse(data, decode) == EmplaceAll([], ParamList(data, decode))
  {
  }

  lemma NoBody(path: string)
    ensures AllParams(path, None) == PathParams(path, true)
  {
    EmplaceNone(PathParams(path, true));
  }

  lemma TwoDecoded(p: Param, q: Param)
    ensures Decoded([p, q]) == [Param(Decode(p.name), Decode(p.value)), Param(Decode(q.name), Decode(q.value))]
  {
    hide Decode;
    assert [p, q][1..] == [q] && [q][1..] == [];
  }

  lemma EmplaceTwo(q: Param, p: Param)
    requires Less(p.name, q.name)
    ensures EmplaceAll([], [q, p]) == [p, q]
  {
    hide Less;
    assert [q, p][..1] == [q] && [q][..0] == [];
    assert EmplaceAll([], []) == [];
    assert EmplaceAll([], [q]) == [q];
    assert [p] + [q] == [p, q];
  }

  lemma TwoEntries(m: seq<Param>)
    requires |m| == 2
    ensures Query(m) == Entry(m[0]) + ("&" + Entry(m[1]))
  {
    assert m[1..] == [m[1]];
  }

  lemma TwoParamsExample()
    ensures var path := "/p?b=2&a=1";
            Signed(UrlPath(path), AllParams(path, None)) == "/p?a=1&b=2"
  {
    hide Decode, AllParams, UrlPath, Signed, Less, Query;
    var p, q := Param("a", "1"), Param("b", "2");
    PlainDecodes();
    SmallerFirst("/p", p, q);
    TwoParamsPath();
    assert Signed("/p", [p, q]) == "/p" + "?" + Entry(p) + "&" + Entry(q);
    assert Entry(p) == "a=1" && Entry(q) == "b=2";
  }

  lemma PlainDecodes()
    ensures Decode("a") == "a" && Decode("b") == "b" && Decode("1") == "1" && Decode("2") == "2" && Less("a", "b")
    ensures CleanParam(Param("a", "1")) && CleanParam(Param("b", "2")) && '?' !in "/p"
  {
  }

  lemma TwoParamsPath()
    ensures Signed("/p", [Param("b", "2"), Param("a", "1")]) == "/p?b=2&a=1"
  {
    hide Query;
    TwoEntries([Param("b", "2"), Param("a", "1")]);
  }
}
