/** Datatypes and sequence facts shared by every module. */
module Common {
  datatype Option<+T> = None | Some(value: T)

  datatype Result<+T, +E> = Ok(value: T) | Err(error: E)

  ghost predicate Increasing(s: seq<int>) {
    forall i, j :: 0 <= i < j < |s| ==> s[i] < s[j]
  }

  ghost predicate NonDecreasing(s: seq<int>) {
    forall i, j :: 0 <= i < j < |s| ==> s[i] <= s[j]
  }

  ghost predicate Distinct<T>(s: seq<T>) {
    forall i, j :: 0 <= i < j < |s| ==> s[i] != s[j]
  }

  function Last<T>(s: seq<T>): (t: T)
    requires s != []
  {
    s[|s| - 1]
  }

  /** The elements of `s` other than those `p` rejects, in order. */
  function Filter<T>(s: seq<T>, p: T -> bool): (r: seq<T>) {
    if s == [] then [] else
    var rest := Filter(s[..|s| - 1], p);
    if p(Last(s)) then rest + [Last(s)] else rest
  }

  lemma {:induction false} FilterIsExact<T>(s: seq<T>, p: T -> bool)
    ensures forall t :: t in Filter(s, p) <==> t in s && p(t)
  {
    if s != [] {
      FilterIsExact(s[..|s| - 1], p);
      assert s == s[..|s| - 1] + [Last(s)];
    }
  }

  lemma {:induction false} FilterConcat<T>(a: seq<T>, b: seq<T>, p: T -> bool)
    ensures Filter(a + b, p) == Filter(a, p) + Filter(b, p)
    decreases |b|
  {
    if b == [] {
      assert a + b == a;
    } else {
      assert (a + b)[..|a + b| - 1] == a + b[..|b| - 1];
      FilterConcat(a, b[..|b| - 1], p);
    }
  }
}
