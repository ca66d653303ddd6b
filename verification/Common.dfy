/** Datatypes shared by every module of the model. */
module Common {

  /** A value that may be missing. */
  datatype Option<+T> = None | Some(value: T)

  /** The outcome of an operation that can fail. */
  datatype Result<+T, +E> = Ok(value: T) | Err(error: E)

  /** A file's content: a list of opaque pages. */
  type Content = seq<int>

  lemma Assoc<T>(a: seq<T>, b: seq<T>, c: seq<T>)
    ensures a + b + c == a + (b + c)
  {
  }

  // ---------- filtering a sequence ----------

  function Filter<T>(s: seq<T>, p: T -> bool): seq<T> {
    if s == [] then [] else (if p(s[0]) then [s[0]] else []) + Filter(s[1..], p)
  }

  /** The positions at which a condition holds, in ascending order. */
  function Where<T>(s: seq<T>, p: T -> bool): (r: seq<nat>)
    ensures forall k | 0 <= k < |r| :: r[k] < |s| && p(s[r[k]])
    ensures forall k, l | 0 <= k < l < |r| :: r[k] < r[l]
    ensures forall i | 0 <= i < |s| && p(s[i]) :: i in r
  {
    if s == [] then []
    else
      var n := |s| - 1;
      var front := Where(s[..n], p);
      if p(s[n]) then front + [n] else front
  }

  lemma {:induction false} FilterSnoc<T>(s: seq<T>, x: T, p: T -> bool)
    ensures Filter(s + [x], p) == Filter(s, p) + if p(x) then [x] else []
  {
    if s == [] {
      assert s + [x] == [x] && [x][1..] == [];
    } else {
      FilterSnoc(s[1..], x, p);
      assert (s + [x])[1..] == s[1..] + [x];
    }
  }

  lemma {:induction false} FilterMeaning<T>(s: seq<T>, p: T -> bool)
    ensures |Filter(s, p)| == |Where(s, p)|
    ensures forall k | 0 <= k < |Where(s, p)| :: Filter(s, p)[k] == s[Where(s, p)[k]]
  {
    if s != [] {
      var n := |s| - 1;
      FilterMeaning(s[..n], p);
      FilterSnoc(s[..n], s[n], p);
      assert s == s[..n] + [s[n]];
    }
  }
}
