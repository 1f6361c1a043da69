/** Small things the components share. */
module Wrappers {
  /** A value that may be absent: the sources' Option, optional and nil. */
  datatype Option<+T> = None | Some(value: T)

  lemma ConcatAssoc<T>(a: seq<T>, b: seq<T>, c: seq<T>)
    ensures (a + b) + c == a + (b + c)
  {
  }

  /** A decode result behind what is already decoded. */
  function Behind<T>(done: seq<T>, r: Option<seq<T>>): Option<seq<T>> {
    if r.None? then None else Some(done + r.value)
  }

  lemma BehindAssoc<T>(a: seq<T>, b: seq<T>, r: Option<seq<T>>)
    ensures Behind(a, Behind(b, r)) == Behind(a + b, r)
  {
    if r.Some? { ConcatAssoc(a, b, r.value); }
  }
}
