/** Sequence shapes shared by several list-building loops of the source. */
module Seqs {
  import opened Wrappers

  lemma AppendAssoc<T>(a: seq<T>, b: seq<T>, c: seq<T>)
    ensures a + (b + c) == (a + b) + c
  {
  }

  /** A non-empty list is its head before its tail, also with more appended. */
  lemma ConsAppend<T>(s: seq<T>, t: seq<T>)
    requires s != []
    ensures s == [s[0]] + s[1..] && s + t == [s[0]] + (s[1..] + t)
  {
  }

  /**
   * A loop that walks a list and appends a value for some of its elements:
   * `f` says, for each element, whether it contributes and what.
   */
  function FilterMap<T, U>(s: seq<T>, f: T -> Option<U>): seq<U>
  {
    if s == [] then []
    else
      var n := |s| - 1;
      FilterMap(s[..n], f) + (match f(s[n]) case Some(u) => [u] case None => [])
  }

  /**
   * The output is a subsequence of the input, taken in order: its entries come
   * from strictly increasing positions, and a position contributes exactly when
   * `f` gives a value there, that value being the entry.
   */
  lemma {:induction false} FilterMapIndices<T, U>(s: seq<T>, f: T -> Option<U>) returns (idx: seq<int>)
    ensures |idx| == |FilterMap(s, f)|
    ensures forall k :: 0 <= k < |idx| ==> 0 <= idx[k] < |s| && f(s[idx[k]]) == Some(FilterMap(s, f)[k])
    ensures forall k, l :: 0 <= k < l < |idx| ==> idx[k] < idx[l]
    ensures forall i :: 0 <= i < |s| ==> (i in idx <==> f(s[i]).Some?)
  {
    if s == [] {
      idx := [];
    } else {
      var n := |s| - 1;
      var prev := FilterMapIndices(s[..n], f);
      forall i | 0 <= i < n ensures s[..n][i] == s[i] { }
      if f(s[n]).Some? {
        assert FilterMap(s, f) == FilterMap(s[..n], f) + [f(s[n]).value];
        idx := prev + [n];
      } else {
        assert FilterMap(s, f) == FilterMap(s[..n], f);
        idx := prev;
      }
    }
  }

  /** Every entry of the output comes from some element of the input. */
  lemma FilterMapFrom<T, U>(s: seq<T>, f: T -> Option<U>, k: int)
    requires 0 <= k < |FilterMap(s, f)|
    ensures exists i :: 0 <= i < |s| && f(s[i]) == Some(FilterMap(s, f)[k])
  {
    var idx := FilterMapIndices(s, f);
    assert 0 <= idx[k] < |s| && f(s[idx[k]]) == Some(FilterMap(s, f)[k]);
  }

  /** Two filters that keep the same positions give outputs of the same length. */
  lemma {:induction false} FilterMapSameLength<T, U, V>(s: seq<T>, f: T -> Option<U>, g: T -> Option<V>)
    requires forall i :: 0 <= i < |s| ==> (f(s[i]).Some? <==> g(s[i]).Some?)
    ensures |FilterMap(s, f)| == |FilterMap(s, g)|
  {
    if s != [] {
      var n := |s| - 1;
      forall i | 0 <= i < n ensures s[..n][i] == s[i] { }
      FilterMapSameLength(s[..n], f, g);
      assert f(s[n]).Some? <==> g(s[n]).Some?;
    }
  }

  /** The elements x of s with `p(x) == want`, in order. */
  function Filter<T>(s: seq<T>, p: T -> bool, want: bool): seq<T>
  {
    if s == [] then []
    else
      var n := |s| - 1;
      Filter(s[..n], p, want) + (if p(s[n]) == want then [s[n]] else [])
  }

  /**
   * Splitting by a predicate loses and invents nothing: the two sides together
   * hold every element as often as the input does, and each side holds exactly
   * the elements on which the predicate has that side's value.
   */
  lemma {:induction false} FilterSplit<T>(s: seq<T>, p: T -> bool)
    ensures multiset(Filter(s, p, true)) + multiset(Filter(s, p, false)) == multiset(s)
    ensures forall x :: x in Filter(s, p, true) <==> x in s && p(x)
    ensures forall x :: x in Filter(s, p, false) <==> x in s && !p(x)
  {
    if s != [] {
      var n := |s| - 1;
      FilterSplit(s[..n], p);
      assert s == s[..n] + [s[n]];
    }
  }

  /**
   * Each side is taken from the input in order: its entries come from strictly
   * increasing positions, and a position is taken exactly when the predicate has
   * that side's value there.
   */
  lemma {:induction false} FilterIndices<T>(s: seq<T>, p: T -> bool, want: bool) returns (idx: seq<int>)
    ensures |idx| == |Filter(s, p, want)|
    ensures forall k :: 0 <= k < |idx| ==> 0 <= idx[k] < |s| && Filter(s, p, want)[k] == s[idx[k]]
    ensures forall k, l :: 0 <= k < l < |idx| ==> idx[k] < idx[l]
    ensures forall i :: 0 <= i < |s| ==> (i in idx <==> p(s[i]) == want)
  {
    if s == [] {
      idx := [];
    } else {
      var n := |s| - 1;
      var prev := FilterIndices(s[..n], p, want);
      forall i | 0 <= i < n ensures s[..n][i] == s[i] { }
      if p(s[n]) == want {
        idx := prev + [n];
      } else {
        idx := prev;
      }
    }
  }

  /** One pass over s that appends each element to one of two lists, as the predicate says. */
  method Partition<T>(s: seq<T>, p: T -> bool) returns (yes: seq<T>, no: seq<T>)
    ensures yes == Filter(s, p, true) && no == Filter(s, p, false)
  {
    yes, no := [], [];
    for i := 0 to |s|
      invariant yes == Filter(s[..i], p, true) && no == Filter(s[..i], p, false)
    {
      assert s[..i + 1][..i] == s[..i];
      if p(s[i]) {
        yes := yes + [s[i]];
      } else {
        no := no + [s[i]];
      }
    }
    assert s[..|s|] == s;
  }
}
