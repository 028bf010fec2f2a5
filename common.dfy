/** Small helpers shared by both collection flows. */
module Common {

  /** A value that may be absent: a missing dictionary key, a failed lookup. */
  datatype Option<T> = None | Some(value: T) {

    /** Python's `d.get(key, default)`: the default only when the key is absent. */
    function GetOr(default: T): (r: T)
      ensures None? ==> r == default
      ensures Some? ==> r == value
    {
      match this
      case Some(v) => v
      case None => default
    }
  }

  /** No element occurs twice. */
  predicate NoDuplicates<T(==)>(s: seq<T>)
  {
    forall i, j :: 0 <= i < j < |s| ==> s[i] != s[j]
  }

  /** The elements of a sequence, as a set. */
  function AsSet<T>(s: seq<T>): set<T>
  {
    set x | x in s
  }

  /** The first `n` elements of `s`, or all of `s` when it is shorter: an API `limit=n`. */
  function Limit<T>(s: seq<T>, n: nat): seq<T>
  {
    if |s| <= n then s else s[..n]
  }

  /** Indexing into the middle part of a three-part concatenation. */
  lemma IndexInMiddle<T>(a: seq<T>, m: seq<T>, c: seq<T>, k: nat)
    requires k < |m|
    ensures |a| + k < |a + m + c| && (a + m + c)[|a| + k] == m[k]
  {
  }

  /** Dropping the last element of a concatenation with a non-empty right part. */
  lemma DropLast<T>(a: seq<T>, b: seq<T>)
    requires b != []
    ensures (a + b)[..|a + b| - 1] == a + b[..|b| - 1]
    ensures (a + b)[|a + b| - 1] == b[|b| - 1]
  {
  }

  /** Extending a prefix by one element. */
  lemma TakeOneMore<T>(s: seq<T>, i: nat)
    requires i < |s|
    ensures s[..i + 1] == s[..i] + [s[i]]
    ensures s[..i + 1][..i] == s[..i]
  {
  }

  /** The results of `f` on each element of `xs`, concatenated in order. */
  function FlatMap<A, B>(f: A -> seq<B>, xs: seq<A>): seq<B>
  {
    if |xs| == 0 then [] else FlatMap(f, xs[..|xs| - 1]) + f(xs[|xs| - 1])
  }

  lemma {:induction false} FlatMapAppend<A, B>(f: A -> seq<B>, a: seq<A>, b: seq<A>)
    ensures FlatMap(f, a + b) == FlatMap(f, a) + FlatMap(f, b)
  {
    if b == [] {
      assert a + b == a;
    } else {
      DropLast(a, b);
      FlatMapAppend(f, a, b[..|b| - 1]);
    }
  }

  lemma FlatMapTakeOneMore<A, B>(f: A -> seq<B>, xs: seq<A>, i: nat)
    requires i < |xs|
    ensures FlatMap(f, xs[..i + 1]) == FlatMap(f, xs[..i]) + f(xs[i])
  {
    TakeOneMore(xs, i);
  }

  lemma FlatMapSingle<A, B>(f: A -> seq<B>, x: A)
    ensures FlatMap(f, [x]) == f(x)
  {
    assert [x][..0] == [];
  }

  /**
   * Element `k` of the part contributed by `xs[j]` sits right after the parts
   * of the elements before it.
   */
  lemma FlatMapIndex<A, B>(f: A -> seq<B>, xs: seq<A>, j: nat, k: nat)
    requires j < |xs| && k < |f(xs[j])|
    ensures |FlatMap(f, xs[..j])| + k < |FlatMap(f, xs)|
    ensures FlatMap(f, xs)[|FlatMap(f, xs[..j])| + k] == f(xs[j])[k]
  {
    var front := xs[..j];
    var rest := xs[j + 1..];
    assert xs == front + [xs[j]] + rest;
    FlatMapAppend(f, front + [xs[j]], rest);
    FlatMapAppend(f, front, [xs[j]]);
    FlatMapSingle(f, xs[j]);
    IndexInMiddle(FlatMap(f, front), f(xs[j]), FlatMap(f, rest), k);
  }

  /** An element of a flat map comes from the result on some element, and every such one is there. */
  lemma {:induction false} FlatMapMember<A, B>(f: A -> seq<B>, xs: seq<A>, y: B)
    ensures y in FlatMap(f, xs) <==> exists i :: 0 <= i < |xs| && y in f(xs[i])
  {
    if |xs| > 0 {
      var n := |xs| - 1;
      FlatMapMember(f, xs[..n], y);
      if y in FlatMap(f, xs[..n]) {
        var i :| 0 <= i < n && y in f(xs[..n][i]);
        assert xs[i] == xs[..n][i];
      }
      if exists i :: 0 <= i < |xs| && y in f(xs[i]) {
        var i :| 0 <= i < |xs| && y in f(xs[i]);
        if i < n {
          assert xs[..n][i] == xs[i];
        }
      }
    }
  }

  /** Python's `list(s)` for a set: every element once, in an order the set chooses. */
  method ListOfSet<T>(s: set<T>) returns (r: seq<T>)
    ensures NoDuplicates(r)
    ensures forall x :: x in r <==> x in s
  {
    r := [];
    var rest := s;
    while rest != {}
      invariant rest <= s
      invariant NoDuplicates(r)
      invariant forall x :: x in r <==> x in s && x !in rest
      decreases |rest|
    {
      var x :| x in rest;
      r := r + [x];
      rest := rest - {x};
    }
  }
}
