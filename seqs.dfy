/** `xs.map(f).filter((p) => p)` where `f` yields `null` for the elements to
    drop: each element is mapped, and the empty results are left out. */
module Seqs {
  import opened Results

  function FilterMap<A, B>(xs: seq<A>, f: A -> Option<B>): (r: seq<B>)
    ensures |r| <= |xs|
  {
    if xs == [] then []
    else (match f(xs[0]) case Some(y) => [y] case None => []) + FilterMap(xs[1..], f)
  }

  /** Every position moved one to the right. */
  function Shift(idx: seq<nat>): (r: seq<nat>)
    ensures |r| == |idx| && forall k :: 0 <= k < |idx| ==> r[k] == idx[k] + 1
  {
    seq(|idx|, k requires 0 <= k < |idx| => idx[k] + 1)
  }

  /** The positions of the elements whose mapped value is kept. */
  function KeptIndices<A, B>(xs: seq<A>, f: A -> Option<B>): seq<nat>
  {
    if xs == [] then []
    else (if f(xs[0]).Some? then [0] else []) + Shift(KeptIndices(xs[1..], f))
  }

  lemma KeptStep<A, B>(xs: seq<A>, f: A -> Option<B>)
    requires xs != []
    ensures FilterMap(xs, f) == (if f(xs[0]).Some? then [f(xs[0]).value] else []) + FilterMap(xs[1..], f)
    ensures forall j :: 1 <= j < |xs| ==> xs[j] == xs[1..][j - 1]
  {
  }

  lemma {:induction false} KeptLength<A, B>(xs: seq<A>, f: A -> Option<B>)
    ensures |KeptIndices(xs, f)| == |FilterMap(xs, f)|
    decreases |xs|
  {
    if xs != [] {
      KeptStep(xs, f);
      KeptLength(xs[1..], f);
    }
  }

  lemma {:induction false} KeptMaps<A, B>(xs: seq<A>, f: A -> Option<B>)
    ensures var r, idx := FilterMap(xs, f), KeptIndices(xs, f);
      forall k :: 0 <= k < |idx| && k < |r| ==> idx[k] < |xs| && f(xs[idx[k]]) == Some(r[k])
    decreases |xs|
  {
    if xs != [] {
      KeptStep(xs, f);
      KeptMaps(xs[1..], f);
      var r, idx := FilterMap(xs, f), KeptIndices(xs, f);
      var r', idx' := FilterMap(xs[1..], f), KeptIndices(xs[1..], f);
      var h := if f(xs[0]).Some? then 1 else 0;
      forall k | 0 <= k < |idx| && k < |r| ensures idx[k] < |xs| && f(xs[idx[k]]) == Some(r[k]) {
        if k >= h {
          assert idx[k] == idx'[k - h] + 1 && r[k] == r'[k - h];
        }
      }
    }
  }

  predicate Increasing(idx: seq<nat>)
  {
    forall k, m :: 0 <= k < m < |idx| ==> idx[k] < idx[m]
  }

  lemma {:induction false} KeptIncreasing<A, B>(xs: seq<A>, f: A -> Option<B>)
    ensures Increasing(KeptIndices(xs, f))
    decreases |xs|
  {
    if xs != [] {
      KeptIncreasing(xs[1..], f);
      var idx, idx' := KeptIndices(xs, f), KeptIndices(xs[1..], f);
      var h := if f(xs[0]).Some? then 1 else 0;
      assert idx == (if h == 1 then [0] else []) + Shift(idx');
      forall k, m | 0 <= k < m < |idx| ensures idx[k] < idx[m] {
        assert idx[m] == idx'[m - h] + 1;
        if k >= h {
          assert idx[k] == idx'[k - h] + 1;
        }
      }
    }
  }

  lemma {:induction false} KeptDropped<A, B>(xs: seq<A>, f: A -> Option<B>)
    ensures var idx := KeptIndices(xs, f);
      forall j :: 0 <= j < |xs| && j !in idx ==> f(xs[j]) == None
    decreases |xs|
  {
    if xs != [] {
      KeptStep(xs, f);
      KeptDropped(xs[1..], f);
      var idx, idx' := KeptIndices(xs, f), KeptIndices(xs[1..], f);
      var h := if f(xs[0]).Some? then 1 else 0;
      forall j | 1 <= j < |xs| && j !in idx ensures f(xs[j]) == None {
        forall k | 0 <= k < |idx'| ensures idx'[k] != j - 1 {
          assert idx[k + h] == idx'[k] + 1;
        }
      }
    }
  }

  /** The kept results are exactly the present mapped values, in the order of
      their elements, one per element; every other element is dropped. */
  lemma FilterMapKeptIndices<A, B>(xs: seq<A>, f: A -> Option<B>)
    ensures var r, idx := FilterMap(xs, f), KeptIndices(xs, f);
      && |idx| == |r|
      && (forall k :: 0 <= k < |idx| ==> idx[k] < |xs| && f(xs[idx[k]]) == Some(r[k]))
      && (forall k, m :: 0 <= k < m < |idx| ==> idx[k] < idx[m])
      && (forall j :: 0 <= j < |xs| && j !in idx ==> f(xs[j]) == None)
  {
    KeptLength(xs, f);
    KeptMaps(xs, f);
    KeptIncreasing(xs, f);
    KeptDropped(xs, f);
  }

  /** Nothing is kept exactly when every element maps to nothing. */
  lemma {:induction false} FilterMapEmpty<A, B>(xs: seq<A>, f: A -> Option<B>)
    ensures FilterMap(xs, f) == [] <==> forall k :: 0 <= k < |xs| ==> f(xs[k]).None?
    decreases |xs|
  {
    if xs != [] {
      KeptStep(xs, f);
      FilterMapEmpty(xs[1..], f);
    }
  }

  /** Mapping then filtering a concatenation handles each part on its own. */
  lemma {:induction false} FilterMapAppend<A, B>(xs: seq<A>, ys: seq<A>, f: A -> Option<B>)
    ensures FilterMap(xs + ys, f) == FilterMap(xs, f) + FilterMap(ys, f)
    decreases |xs|
  {
    if xs == [] {
      assert xs + ys == ys;
    } else {
      assert (xs + ys)[0] == xs[0];
      assert (xs + ys)[1..] == xs[1..] + ys;
      FilterMapAppend(xs[1..], ys, f);
    }
  }

  /** An element whose mapped value is empty leaves no trace in the result. */
  lemma DroppedElement<A, B>(xs: seq<A>, x: A, ys: seq<A>, f: A -> Option<B>)
    requires f(x) == None
    ensures FilterMap(xs + [x] + ys, f) == FilterMap(xs + ys, f)
  {
    FilterMapAppend(xs + [x], ys, f);
    FilterMapAppend(xs, [x], f);
    FilterMapAppend(xs, ys, f);
    assert FilterMap([x], f) == [] by {
      assert [x][1..] == [];
    }
  }

  /** The search an unanchored regular-expression match performs: the first
      position at or after `i` from which the anchored matcher `here`
      succeeds on the rest of `s`. */
  function Leftmost<C, T>(s: seq<C>, i: nat, here: seq<C> -> Option<T>): (r: Option<nat>)
    requires i <= |s|
    ensures r.Some? ==> i <= r.value <= |s| && here(s[r.value..]).Some?
    ensures r.Some? ==> forall j :: i <= j < r.value ==> here(s[j..]).None?
    ensures r.None? ==> forall j :: i <= j <= |s| ==> here(s[j..]).None?
    decreases |s| - i
  {
    if here(s[i..]).Some? then Some(i)
    else if i == |s| then None
    else Leftmost(s, i + 1, here)
  }
}
