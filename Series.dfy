/**
 * Column operations shared by the transforms: dropping missing cells while
 * mapping the rest (`dropna` followed by a projection or a derived column),
 * the positions of the rows that survive, and occurrence counts.
 */
module Series {
  import opened Wrappers

  /** The values `f` yields, in order, for the elements of `s` on which it is not None. */
  function Collect<T, U>(s: seq<T>, f: T -> Option<U>): (out: seq<U>)
    ensures |out| <= |s|
  {
    if s == [] then []
    else
      Collect(s[..|s| - 1], f) + match f(s[|s| - 1]) case Some(u) => [u] case None => []
  }

  /** The positions of the elements of `s` that `f` keeps. */
  function Kept<T, U>(s: seq<T>, f: T -> Option<U>): (idx: seq<nat>) {
    if s == [] then []
    else
      var n := |s| - 1;
      Kept(s[..n], f) + if f(s[n]).Some? then [n] else []
  }

  /** `Kept` lists, in ascending order, exactly the positions of the elements that `f` keeps. */
  lemma {:induction false} KeptExactly<T, U>(s: seq<T>, f: T -> Option<U>)
    ensures forall k :: 0 <= k < |Kept(s, f)| ==> Kept(s, f)[k] < |s| && f(s[Kept(s, f)[k]]).Some?
    ensures forall k, l :: 0 <= k < l < |Kept(s, f)| ==> Kept(s, f)[k] < Kept(s, f)[l]
    ensures forall i :: 0 <= i < |s| && f(s[i]).Some? ==> i in Kept(s, f)
  {
    if s != [] {
      var n := |s| - 1;
      KeptExactly(s[..n], f);
      var idx := Kept(s[..n], f);
      assert forall i :: 0 <= i < n ==> s[..n][i] == s[i];
      if f(s[n]).Some? {
        assert Kept(s, f) == idx + [n];
      } else {
        assert Kept(s, f) == idx;
      }
    }
  }

  /** The k-th collected value is what `f` yields for the element at the k-th kept position. */
  lemma {:induction false} CollectAt<T, U>(s: seq<T>, f: T -> Option<U>)
    ensures |Collect(s, f)| == |Kept(s, f)|
    ensures forall k :: 0 <= k < |Kept(s, f)| ==>
      Kept(s, f)[k] < |s| && f(s[Kept(s, f)[k]]) == Some(Collect(s, f)[k])
  {
    if s != [] {
      var n := |s| - 1;
      CollectAt(s[..n], f);
      var out, idx := Collect(s[..n], f), Kept(s[..n], f);
      assert forall k :: 0 <= k < |idx| ==> s[..n][idx[k]] == s[idx[k]];
      match f(s[n])
      case Some(u) =>
        assert Collect(s, f) == out + [u];
        assert Kept(s, f) == idx + [n];
      case None =>
        assert Collect(s, f) == out;
        assert Kept(s, f) == idx;
    }
  }

  /** Collecting distributes over concatenation: the relative order of the elements is kept. */
  lemma {:induction false} CollectAppend<T, U>(a: seq<T>, b: seq<T>, f: T -> Option<U>)
    ensures Collect(a + b, f) == Collect(a, f) + Collect(b, f)
  {
    if b == [] {
      assert a + b == a;
    } else {
      var n := |b| - 1;
      CollectAppend(a, b[..n], f);
      assert (a + b)[..|a + b| - 1] == a + b[..n];
    }
  }

  /** Collecting again with a filter that keeps what it keeps unchanged removes nothing more. */
  lemma {:induction false} CollectIdempotent<T>(s: seq<T>, f: T -> Option<T>)
    requires forall x :: f(x).Some? ==> f(x).value == x
    ensures Collect(Collect(s, f), f) == Collect(s, f)
  {
    if s != [] {
      var n := |s| - 1;
      CollectIdempotent(s[..n], f);
      var tail := match f(s[n]) case Some(u) => [u] case None => [];
      CollectAppend(Collect(s[..n], f), tail, f);
      if f(s[n]).Some? {
        assert [s[n]][..0] == [];
      }
    }
  }

  /** The positions of the elements of `s` that satisfy `keep`. */
  ghost function Where<T>(s: seq<T>, keep: T -> bool): set<int> {
    set i | 0 <= i < |s| && keep(s[i])
  }

  lemma WhereStep<T>(s: seq<T>, keep: T -> bool)
    requires s != []
    ensures |Where(s, keep)| == |Where(s[..|s| - 1], keep)| + if keep(s[|s| - 1]) then 1 else 0
  {
    var n := |s| - 1;
    assert forall i :: 0 <= i < n ==> s[..n][i] == s[i];
    if keep(s[n]) {
      assert Where(s, keep) == Where(s[..n], keep) + {n};
    } else {
      assert Where(s, keep) == Where(s[..n], keep);
    }
  }

  /** The positions of the elements of `s` on which `f` is not None. */
  ghost function Defined<T, U>(s: seq<T>, f: T -> Option<U>): (d: set<int>)
    ensures forall i :: i in d <==> 0 <= i < |s| && f(s[i]).Some?
  {
    Where(s, x => f(x).Some?)
  }

  /** The positions of the elements of `s` for which `f` yields `u`. */
  ghost function Yielding<T, U>(s: seq<T>, f: T -> Option<U>, u: U): (y: set<int>)
    ensures forall i :: i in y <==> 0 <= i < |s| && f(s[i]) == Some(u)
  {
    Where(s, x => f(x) == Some(u))
  }

  /** The number of collected values is the number of elements on which `f` is not None. */
  lemma {:induction false} CollectCount<T, U>(s: seq<T>, f: T -> Option<U>)
    ensures |Collect(s, f)| == |Defined(s, f)|
  {
    var keep := x => f(x).Some?;
    assert Defined(s, f) == Where(s, keep);
    if s != [] {
      var n := |s| - 1;
      CollectCount(s[..n], f);
      assert Defined(s[..n], f) == Where(s[..n], keep);
      WhereStep(s, keep);
    }
  }

  /** Each value occurs among the collected values once per element of `s` that yields it. */
  lemma {:induction false} CollectOccurrences<T, U>(s: seq<T>, f: T -> Option<U>, u: U)
    ensures multiset(Collect(s, f))[u] == |Yielding(s, f, u)|
  {
    var keep := x => f(x) == Some(u);
    assert Yielding(s, f, u) == Where(s, keep);
    if s != [] {
      var n := |s| - 1;
      CollectOccurrences(s[..n], f, u);
      assert Yielding(s[..n], f, u) == Where(s[..n], keep);
      WhereStep(s, keep);
      match f(s[n])
      case Some(v) =>
        assert Collect(s, f) == Collect(s[..n], f) + [v];
      case None =>
        assert Collect(s, f) == Collect(s[..n], f);
    }
  }

  /** No value occurs twice in `s`. */
  predicate NoDuplicates<T(==)>(s: seq<T>) {
    forall i, j :: 0 <= i < j < |s| ==> s[i] != s[j]
  }

  /** A sequence without duplicates has as many distinct values as elements. */
  lemma {:induction false} DistinctValues<T>(s: seq<T>)
    requires NoDuplicates(s)
    ensures |set x | x in s| == |s|
  {
    if s != [] {
      var n := |s| - 1;
      DistinctValues(s[..n]);
      assert (set x | x in s) == (set x | x in s[..n]) + {s[n]};
      assert s[n] !in s[..n];
    }
  }
}
