/** The byte order of strings, sorting by it, and why a sorted list is determined by its elements. */
module StringOrder {

  /** a comes before b. */
  predicate Less(a: string, b: string) {
    if b == "" then false
    else if a == "" then true
    else a[0] < b[0] || (a[0] == b[0] && Less(a[1..], b[1..]))
  }

  lemma {:induction false} LessTotal(a: string, b: string)
    ensures a == b || Less(a, b) || Less(b, a)
    ensures !(Less(a, b) && Less(b, a)) && !Less(a, a)
  {
    if a != "" && b != "" && a[0] == b[0] {
      LessTotal(a[1..], b[1..]);
      assert a == [a[0]] + a[1..] && b == [b[0]] + b[1..];
    }
    if a != "" { LessTotal(a[1..], a[1..]); }
  }

  lemma {:induction false} LessTransitive(a: string, b: string, c: string)
    requires Less(a, b) && Less(b, c)
    ensures Less(a, c)
  {
    if a != "" && a[0] == b[0] == c[0] { LessTransitive(a[1..], b[1..], c[1..]); }
  }

  /** They agree up to i, where a has the smaller char. */
  predicate Before(a: string, b: string, i: nat) {
    i < |a| && i < |b| && a[..i] == b[..i] && a[i] < b[i]
  }

  lemma BeforeTail(a: string, b: string, i: nat)
    requires a != "" && b != ""
    ensures Before(a, b, 0) <==> a[0] < b[0]
    ensures Before(a, b, i + 1) <==> a[0] == b[0] && Before(a[1..], b[1..], i)
  {
    if i + 1 <= |a| && i + 1 <= |b| {
      assert a[..i + 1] == [a[0]] + a[1..][..i] && b[..i + 1] == [b[0]] + b[1..][..i];
      if a[..i + 1] == b[..i + 1] { assert a[1..][..i] == a[..i + 1][1..] == b[..i + 1][1..] == b[1..][..i]; }
    }
  }

  /** The order of a dictionary: a proper prefix comes first, else the first char that differs decides. */
  lemma {:induction false} LessIff(a: string, b: string)
    ensures Less(a, b) <==> (a <= b && a != b) || exists i: nat :: Before(a, b, i)
  {
    if a != "" && b != "" {
      var c, d := a[1..], b[1..];
      assert a == [a[0]] + c && b == [b[0]] + d;
      LessIff(c, d);
      hide Before;
      BeforeTail(a, b, 0);
      forall i: nat ensures Before(a, b, i + 1) <==> a[0] == b[0] && Before(c, d, i) { BeforeTail(a, b, i); }
      if i: nat :| Before(c, d, i) && a[0] == b[0] { assert Before(a, b, i + 1); }
      if i: nat :| Before(a, b, i) {
        if i > 0 { BeforeTail(a, b, i - 1); }
      }
    }
  }

  predicate StrictlySorted(s: seq<string>) {
    forall i, j | 0 <= i < j < |s| :: Less(s[i], s[j])
  }

  predicate Sorted(s: seq<string>) {
    forall i, j | 0 <= i < j < |s| :: !Less(s[j], s[i])
  }

  lemma TailElements(s: seq<string>, x: string)
    requires s != [] && StrictlySorted(s)
    ensures x in s[1..] <==> x in s && x != s[0]
  {
    LessTotal(s[0], s[0]);
    assert s == [s[0]] + s[1..];
    if x in s[1..] {
      var i :| 0 <= i < |s| - 1 && s[1..][i] == x;
      assert Less(s[0], s[i + 1]);
    }
  }

  /** A strictly sorted list is determined by the set of its elements. */
  lemma {:induction false} SortedUnique(s: seq<string>, t: seq<string>)
    requires StrictlySorted(s) && StrictlySorted(t)
    requires forall x :: x in s <==> x in t
    ensures s == t
  {
    assert s != [] ==> s[0] in s;
    assert t != [] ==> t[0] in t;
    if s != [] && t != [] {
      LessTotal(s[0], t[0]);
      forall x ensures x in s[1..] <==> x in t[1..] {
        TailElements(s, x);
        TailElements(t, x);
      }
      SortedUnique(s[1..], t[1..]);
    }
  }

  function Insert(x: string, s: seq<string>): (r: seq<string>)
    requires Sorted(s)
    ensures Sorted(r) && multiset(r) == multiset(s) + multiset{x}
  {
    if s == [] then [x]
    else if !Less(s[0], x) then
      InsertFirst(x, s);
      [x] + s
    else
      var r := Insert(x, s[1..]);
      InsertBehind(x, s, r);
      [s[0]] + r
  }

  lemma InsertFirst(x: string, s: seq<string>)
    requires Sorted(s) && s != [] && !Less(s[0], x)
    ensures Sorted([x] + s)
  {
    forall i | 0 <= i < |s| ensures !Less(s[i], x) {
      if i > 0 && Less(s[i], x) {
        LessTotal(s[0], s[i]);
        if s[0] != s[i] { LessTransitive(s[0], s[i], x); }
      }
    }
  }

  lemma InsertBehind(x: string, s: seq<string>, r: seq<string>)
    requires s != [] && Sorted(s) && Less(s[0], x) && Sorted(r) && multiset(r) == multiset(s[1..]) + multiset{x}
    ensures Sorted([s[0]] + r) && multiset([s[0]] + r) == multiset(s) + multiset{x}
  {
    assert s == [s[0]] + s[1..];
    forall i | 0 <= i < |r| ensures !Less(r[i], s[0]) {
      assert r[i] in multiset(r);
      if r[i] == x { LessTotal(x, s[0]); } else { assert r[i] in s[1..]; }
    }
  }

  /** sort.Strings. */
  function Sort(s: seq<string>): (r: seq<string>)
    ensures Sorted(r) && multiset(r) == multiset(s)
  {
    if s == [] then []
    else
      assert s == s[..|s| - 1] + [s[|s| - 1]];
      Insert(s[|s| - 1], Sort(s[..|s| - 1]))
  }
}
