/** The optional value used wherever the parser answers "present or absent". */
module Wrappers {

  datatype Option<+T> = None | Some(value: T)

  /** The value of `o` as a sequence of zero or one elements. */
  function OptionToSeq<T>(o: Option<T>): (r: seq<T>)
    ensures |r| <= 1
    ensures o.None? <==> r == []
    ensures o.Some? ==> r == [o.value]
  {
    match o
    case None => []
    case Some(v) => [v]
  }

  /** The present values of `os`, in order. */
  function Compact<T>(os: seq<Option<T>>): (r: seq<T>)
    ensures |r| <= |os|
  {
    if os == [] then [] else Compact(os[..|os| - 1]) + OptionToSeq(os[|os| - 1])
  }

  /** `idx` lists, in increasing order, the positions of the present values of
      `os`, and every other position of `os` is absent. */
  ghost predicate Positions<T>(os: seq<Option<T>>, idx: seq<nat>) {
    && |idx| == |Compact(os)|
    && (forall i :: 0 <= i < |idx| ==> idx[i] < |os| && os[idx[i]] == Some(Compact(os)[i]))
    && (forall i, j :: 0 <= i < j < |idx| ==> idx[i] < idx[j])
    && (forall j :: 0 <= j < |os| && j !in idx ==> os[j].None?)
  }

  /** `Compact` keeps exactly the present values, in order: `idx` lists their
      positions in increasing order, and every other position is absent. */
  lemma {:induction false} CompactedPositions<T>(os: seq<Option<T>>) returns (idx: seq<nat>)
    ensures |idx| == |Compact(os)|
    ensures forall i :: 0 <= i < |idx| ==> idx[i] < |os| && os[idx[i]] == Some(Compact(os)[i])
    ensures forall i, j :: 0 <= i < j < |idx| ==> idx[i] < idx[j]
    ensures forall j :: 0 <= j < |os| && j !in idx ==> os[j].None?
  {
    if os == [] {
      idx := [];
    } else {
      var before := CompactedPositions(os[..|os| - 1]);
      if os[|os| - 1].Some? {
        idx := PresentExtends(os, before);
      } else {
        AbsentExtends(os, before);
        idx := before;
      }
    }
  }

  /** A present last value adds its position to those of the prefix. */
  lemma PresentExtends<T>(os: seq<Option<T>>, before: seq<nat>) returns (idx: seq<nat>)
    requires os != [] && os[|os| - 1].Some?
    requires Positions(os[..|os| - 1], before)
    ensures idx == before + [|os| - 1]
    ensures Positions(os, idx)
  {
    var n := |os| - 1;
    var prefix := os[..n];
    var c := Compact(os);
    assert c == Compact(prefix) + [os[n].value];
    idx := before + [n];
    forall i | 0 <= i < |idx|
      ensures idx[i] < |os| && os[idx[i]] == Some(c[i])
    {
      if i < |before| {
        assert idx[i] == before[i];
        assert c[i] == Compact(prefix)[i];
        assert prefix[before[i]] == os[before[i]];
      }
    }
    forall i, j | 0 <= i < j < |idx|
      ensures idx[i] < idx[j]
    {
      assert idx[i] == before[i];
    }
    forall j | 0 <= j < |os| && j !in idx
      ensures os[j].None?
    {
      assert j !in before && prefix[j] == os[j];
    }
  }

  /** An absent last value leaves the positions of the prefix as they are. */
  lemma AbsentExtends<T>(os: seq<Option<T>>, before: seq<nat>)
    requires os != [] && os[|os| - 1].None?
    requires Positions(os[..|os| - 1], before)
    ensures Positions(os, before)
  {
    var n := |os| - 1;
    var prefix := os[..n];
    assert Compact(os) == Compact(prefix);
    forall i | 0 <= i < |before|
      ensures before[i] < |os| && os[before[i]] == Some(Compact(os)[i])
    {
      assert prefix[before[i]] == os[before[i]];
    }
    forall j | 0 <= j < |os| && j !in before
      ensures os[j].None?
    {
      if j < n {
        assert prefix[j] == os[j];
      }
    }
  }

  /** The elements of `xs` that pass `keep`, in order. */
  function Filter<T>(keep: T -> bool, xs: seq<T>): (r: seq<T>)
    ensures |r| <= |xs|
  {
    if xs == [] then [] else Filter(keep, xs[..|xs| - 1]) + (if keep(xs[|xs| - 1]) then [xs[|xs| - 1]] else [])
  }

  /** An element is kept exactly when it occurs and passes. */
  lemma {:induction false} FilterMembers<T>(keep: T -> bool, xs: seq<T>, x: T)
    ensures x in Filter(keep, xs) <==> x in xs && keep(x)
  {
    if xs != [] {
      var n := |xs| - 1;
      FilterMembers(keep, xs[..n], x);
      assert xs == xs[..n] + [xs[n]];
    }
  }

  /** Filtering works element by element and keeps the order. */
  lemma {:induction false} FilterSplits<T>(keep: T -> bool, a: seq<T>, b: seq<T>)
    ensures Filter(keep, a + b) == Filter(keep, a) + Filter(keep, b)
    decreases |b|
  {
    if b == [] {
      assert a + b == a;
    } else {
      var n := |b| - 1;
      var ab := a + b;
      assert ab[..|ab| - 1] == a + b[..n];
      assert ab[|ab| - 1] == b[n];
      FilterSplits(keep, a, b[..n]);
    }
  }
}
