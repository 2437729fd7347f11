/** Results of operations that can fail. */
module Options {
  datatype Option<+T> = None | Some(value: T)

  /** A reading result - items and end position - with some items already read in front. */
  function After<T>(done: seq<T>, r: Option<(seq<T>, nat)>): Option<(seq<T>, nat)> {
    match r
    case None => None
    case Some((rest, end)) => Some((done + rest, end))
  }

  lemma AfterNothing<T>(r: Option<(seq<T>, nat)>)
    ensures After([], r) == r
  {
    if r.Some? { assert [] + r.value.0 == r.value.0; }
  }

  lemma AfterAfter<T>(a: seq<T>, b: seq<T>, r: Option<(seq<T>, nat)>)
    ensures After(a, After(b, r)) == After(a + b, r)
  {
    if r.Some? { assert a + (b + r.value.0) == a + b + r.value.0; }
  }

  lemma AfterEnd<T>(done: seq<T>, pos: nat)
    ensures After(done, Some(([], pos))) == Some((done, pos))
    ensures After<T>(done, None) == None
  {
    assert done + [] == done;
  }
}
