/** The Swift standard-library operations on arrays that the collection store
    and its views rely on, modelled as functions on sequences:
    `firstIndex(where:)`, `filter`, `compactMap`, `remove(atOffsets:)` and
    `move(fromOffsets:toOffset:)`. An `IndexSet` of offsets is a `set<nat>`.

    The offset-based operations are all built from two pieces: `Positions`, the
    ascending list of positions that a predicate selects, and `Pick`, the
    elements found at a list of positions. */
module SwiftSeq {

  datatype Option<T> = None | Some(value: T)

  // ---------------------------------------------------------------------------
  // firstIndex(where:)

  /** The position of the first element that satisfies `p`, or `None`. */
  function FirstIndex<T>(s: seq<T>, p: T -> bool): (r: Option<nat>)
    ensures r.Some? ==> r.value < |s| && p(s[r.value])
    ensures r.Some? ==> forall j :: 0 <= j < r.value ==> !p(s[j])
    ensures r.None? ==> forall j :: 0 <= j < |s| ==> !p(s[j])
  {
    if s == [] then None
    else if p(s[0]) then Some(0)
    else match FirstIndex(s[1..], p)
      case None => None
      case Some(i) => Some(i + 1)
  }

  /** Two sequences that agree on `p` element by element have the same first match. */
  lemma FirstIndexRespectsAgreement<T>(s: seq<T>, t: seq<T>, p: T -> bool)
    requires |s| == |t|
    requires forall i :: 0 <= i < |s| ==> p(s[i]) == p(t[i])
    ensures FirstIndex(s, p) == FirstIndex(t, p)
  {
  }

  // ---------------------------------------------------------------------------
  // Positions and Pick

  predicate Increasing(xs: seq<nat>) {
    forall k, l :: 0 <= k < l < |xs| ==> xs[k] < xs[l]
  }

  predicate Distinct(xs: seq<nat>) {
    forall k, l :: 0 <= k < l < |xs| ==> xs[k] != xs[l]
  }

  predicate Below(xs: seq<nat>, n: nat) {
    forall k :: 0 <= k < |xs| ==> xs[k] < n
  }

  /** The positions `i` with `lo <= i < hi` that `keep` selects, in ascending order. */
  function Positions(lo: nat, hi: nat, keep: set<nat>): (r: seq<nat>)
    requires lo <= hi
    ensures |r| <= hi - lo
    ensures forall k :: 0 <= k < |r| ==> lo <= r[k] < hi
    decreases hi - lo
  {
    if lo == hi then []
    else
      var rest := Positions(lo + 1, hi, keep);
      if lo in keep then [lo] + rest else rest
  }

  /** `Positions` lists exactly the selected positions of the range, ascending. */
  lemma PositionsSpec(lo: nat, hi: nat, keep: set<nat>)
    requires lo <= hi
    ensures Increasing(Positions(lo, hi, keep))
    ensures forall k :: 0 <= k < |Positions(lo, hi, keep)| ==> Positions(lo, hi, keep)[k] in keep
    ensures forall i :: lo <= i < hi && i in keep ==> i in Positions(lo, hi, keep)
  {
    PositionsIncreasing(lo, hi, keep);
    PositionsSelected(lo, hi, keep);
    PositionsComplete(lo, hi, keep);
  }

  lemma {:induction false} PositionsIncreasing(lo: nat, hi: nat, keep: set<nat>)
    requires lo <= hi
    ensures Increasing(Positions(lo, hi, keep))
    decreases hi - lo
  {
    if lo < hi {
      PositionsIncreasing(lo + 1, hi, keep);
      var rest := Positions(lo + 1, hi, keep);
      if lo in keep {
        var r := [lo] + rest;
        assert forall k :: 1 <= k < |r| ==> r[k] == rest[k - 1];
      }
    }
  }

  lemma {:induction false} PositionsSelected(lo: nat, hi: nat, keep: set<nat>)
    requires lo <= hi
    ensures forall k :: 0 <= k < |Positions(lo, hi, keep)| ==> Positions(lo, hi, keep)[k] in keep
    decreases hi - lo
  {
    if lo < hi {
      PositionsSelected(lo + 1, hi, keep);
      var rest := Positions(lo + 1, hi, keep);
      if lo in keep {
        var r := [lo] + rest;
        assert Positions(lo, hi, keep) == r;
        forall k | 0 <= k < |r| ensures r[k] in keep {
          if k > 0 {
            assert r[k] == rest[k - 1];
          }
        }
      }
    }
  }

  lemma {:induction false} PositionsComplete(lo: nat, hi: nat, keep: set<nat>)
    requires lo <= hi
    ensures forall i :: lo <= i < hi && i in keep ==> i in Positions(lo, hi, keep)
    decreases hi - lo
  {
    if lo < hi {
      PositionsComplete(lo + 1, hi, keep);
      var rest := Positions(lo + 1, hi, keep);
      if lo in keep {
        assert Positions(lo, hi, keep) == [lo] + rest;
      }
    }
  }

  /** A range split by a predicate and its negation: the two lists together are
      as long as the range. */
  lemma {:induction false} PositionsLengths(lo: nat, hi: nat, keep: set<nat>, drop: set<nat>)
    requires lo <= hi
    requires forall i :: lo <= i < hi ==> (i in drop) == (i !in keep)
    ensures |Positions(lo, hi, keep)| + |Positions(lo, hi, drop)| == hi - lo
    decreases hi - lo
  {
    if lo < hi {
      PositionsLengths(lo + 1, hi, keep, drop);
    }
  }

  /** The elements of `s` found at the positions `idx`, in the order of `idx`. */
  function Pick<T>(s: seq<T>, idx: seq<nat>): (r: seq<T>)
    requires Below(idx, |s|)
    ensures |r| == |idx|
  {
    if idx == [] then [] else [s[idx[0]]] + Pick(s, idx[1..])
  }

  lemma {:induction false} PickAt<T>(s: seq<T>, idx: seq<nat>)
    requires Below(idx, |s|)
    ensures forall k :: 0 <= k < |idx| ==> Pick(s, idx)[k] == s[idx[k]]
  {
    if idx != [] {
      PickAt(s, idx[1..]);
    }
  }

  lemma PickCons<T>(s: seq<T>, i: nat, idx: seq<nat>)
    requires i < |s| && Below(idx, |s|)
    ensures Below([i] + idx, |s|)
    ensures Pick(s, [i] + idx) == [s[i]] + Pick(s, idx)
  {
    assert ([i] + idx)[1..] == idx;
  }

  lemma PickAppend<T>(s: seq<T>, xs: seq<nat>, ys: seq<nat>)
    requires Below(xs, |s|) && Below(ys, |s|)
    ensures Below(xs + ys, |s|)
    ensures Pick(s, xs + ys) == Pick(s, xs) + Pick(s, ys)
  {
    PickAt(s, xs);
    PickAt(s, ys);
    PickAt(s, xs + ys);
  }

  /** `Positions` over adjoining ranges concatenate. */
  lemma {:induction false} PositionsSplit(lo: nat, mid: nat, hi: nat, keep: set<nat>)
    requires lo <= mid <= hi
    ensures Positions(lo, hi, keep) == Positions(lo, mid, keep) + Positions(mid, hi, keep)
    decreases mid - lo
  {
    if lo < mid {
      PositionsSplit(lo + 1, mid, hi, keep);
      if lo in keep {
        assert [lo] + Positions(lo + 1, mid, keep) + Positions(mid, hi, keep)
            == [lo] + (Positions(lo + 1, mid, keep) + Positions(mid, hi, keep));
      }
    }
  }

  lemma SliceHead<T>(s: seq<T>, lo: nat, hi: nat)
    requires lo < hi <= |s|
    ensures s[lo..hi] == [s[lo]] + s[lo + 1..hi]
  {
  }

  /** A predicate that holds on a whole range selects the whole range. */
  lemma {:induction false} PickEverything<T>(s: seq<T>, lo: nat, hi: nat, keep: set<nat>)
    requires lo <= hi <= |s|
    requires forall i :: lo <= i < hi ==> i in keep
    ensures Pick(s, Positions(lo, hi, keep)) == s[lo..hi]
    decreases hi - lo
  {
    if lo < hi {
      PickEverything(s, lo + 1, hi, keep);
      PickCons(s, lo, Positions(lo + 1, hi, keep));
      SliceHead(s, lo, hi);
    }
  }

  /** A predicate that holds nowhere on a range selects nothing. */
  lemma {:induction false} NoneSelected(lo: nat, hi: nat, keep: set<nat>)
    requires lo <= hi
    requires forall i :: lo <= i < hi ==> i !in keep
    ensures Positions(lo, hi, keep) == []
    decreases hi - lo
  {
    if lo < hi {
      NoneSelected(lo + 1, hi, keep);
    }
  }

  /** Splitting a range by a predicate and its negation keeps every element once. */
  lemma {:induction false} PickPartition<T>(s: seq<T>, lo: nat, hi: nat, keep: set<nat>, drop: set<nat>)
    requires lo <= hi <= |s|
    requires forall i :: lo <= i < hi ==> (i in drop) == (i !in keep)
    ensures multiset(Pick(s, Positions(lo, hi, keep))) + multiset(Pick(s, Positions(lo, hi, drop)))
         == multiset(s[lo..hi])
    decreases hi - lo
  {
    if lo < hi {
      PickPartition(s, lo + 1, hi, keep, drop);
      SliceCons(s, lo, hi);
      if lo in keep {
        PickPositionsCons(s, lo, hi, keep);
      } else {
        PickPositionsCons(s, lo, hi, drop);
      }
    }
  }

  lemma SliceCons<T>(s: seq<T>, lo: nat, hi: nat)
    requires lo < hi <= |s|
    ensures multiset(s[lo..hi]) == multiset{s[lo]} + multiset(s[lo + 1..hi])
  {
    assert s[lo..hi] == [s[lo]] + s[lo + 1..hi];
  }

  lemma PickPositionsCons<T>(s: seq<T>, lo: nat, hi: nat, keep: set<nat>)
    requires lo < hi <= |s| && lo in keep
    ensures multiset(Pick(s, Positions(lo, hi, keep)))
         == multiset{s[lo]} + multiset(Pick(s, Positions(lo + 1, hi, keep)))
  {
    PickCons(s, lo, Positions(lo + 1, hi, keep));
  }

  lemma {:induction false} InjectiveImageSize(idx: seq<nat>)
    requires Distinct(idx)
    ensures |set k | 0 <= k < |idx| :: idx[k]| == |idx|
  {
    if idx != [] {
      var last := |idx| - 1;
      var init := idx[..last];
      InjectiveImageSize(init);
      var a := set k | 0 <= k < |init| :: init[k];
      var b := set k | 0 <= k < |idx| :: idx[k];
      assert b == a + {idx[last]};
      assert idx[last] !in a;
    }
  }

  // ---------------------------------------------------------------------------
  // Subsequences

  /** `a` is `b` with some elements left out and the rest in their order. */
  ghost predicate IsSubsequence<T>(a: seq<T>, b: seq<T>) {
    exists idx: seq<nat> :: Increasing(idx) && Below(idx, |b|) && a == Pick(b, idx)
  }

  lemma PickIncreasingIsSubsequence<T>(s: seq<T>, idx: seq<nat>)
    requires Below(idx, |s|) && Increasing(idx)
    ensures IsSubsequence(Pick(s, idx), s)
  {
  }

  // ---------------------------------------------------------------------------
  // filter

  /** The positions of `s` whose element satisfies `p`. */
  function Satisfies<T>(s: seq<T>, p: T -> bool): set<nat> {
    set i: nat | i < |s| && p(s[i])
  }

  function Fails<T>(s: seq<T>, p: T -> bool): set<nat> {
    set i: nat | i < |s| && !p(s[i])
  }

  /** `s.filter(p)`: the elements that satisfy `p`, in their original order. */
  function Filter<T>(s: seq<T>, p: T -> bool): (r: seq<T>)
    ensures |r| <= |s|
    ensures forall k :: 0 <= k < |r| ==> p(r[k])
  {
    var idx := Positions(0, |s|, Satisfies(s, p));
    PositionsSpec(0, |s|, Satisfies(s, p));
    PickAt(s, idx);
    Pick(s, idx)
  }

  /** An element is kept by `filter` exactly when it occurs in the input and satisfies `p`. */
  lemma FilterMembers<T>(s: seq<T>, p: T -> bool, x: T)
    ensures x in Filter(s, p) <==> x in s && p(x)
  {
    if x in Filter(s, p) {
      FilterKeepsOnlyInput(s, p, x);
    }
    if x in s && p(x) {
      FilterKeepsSatisfying(s, p, x);
    }
  }

  lemma FilterKeepsOnlyInput<T>(s: seq<T>, p: T -> bool, x: T)
    requires x in Filter(s, p)
    ensures x in s
  {
    var idx := Positions(0, |s|, Satisfies(s, p));
    PickAt(s, idx);
    var k :| 0 <= k < |idx| && Filter(s, p)[k] == x;
    assert s[idx[k]] == x;
  }

  lemma FilterKeepsSatisfying<T>(s: seq<T>, p: T -> bool, x: T)
    requires x in s && p(x)
    ensures x in Filter(s, p)
  {
    var idx := Positions(0, |s|, Satisfies(s, p));
    PositionsComplete(0, |s|, Satisfies(s, p));
    var i :| 0 <= i < |s| && s[i] == x;
    assert i in Satisfies(s, p);
    assert i in idx;
    var k :| 0 <= k < |idx| && idx[k] == i;
    PickAt(s, idx);
    assert Filter(s, p)[k] == x;
  }

  /** `filter` keeps every occurrence of a satisfying element and none of the others. */
  lemma FilterCounts<T>(s: seq<T>, p: T -> bool, x: T)
    ensures multiset(Filter(s, p))[x] == if p(x) then multiset(s)[x] else 0
  {
    var dropped := Pick(s, Positions(0, |s|, Fails(s, p)));
    PickPartition(s, 0, |s|, Satisfies(s, p), Fails(s, p));
    assert s[0..|s|] == s;
    if p(x) {
      PositionsSpec(0, |s|, Fails(s, p));
      PickAt(s, Positions(0, |s|, Fails(s, p)));
      assert x !in dropped;
    } else {
      assert x !in Filter(s, p);
    }
  }

  /** `filter` preserves the relative order of what it keeps. */
  lemma FilterIsSubsequence<T>(s: seq<T>, p: T -> bool)
    ensures IsSubsequence(Filter(s, p), s)
  {
    PositionsSpec(0, |s|, Satisfies(s, p));
    PickIncreasingIsSubsequence(s, Positions(0, |s|, Satisfies(s, p)));
  }

  /** A predicate true of every element keeps the whole sequence. */
  lemma FilterKeepsAll<T>(s: seq<T>, p: T -> bool)
    requires forall k :: 0 <= k < |s| ==> p(s[k])
    ensures Filter(s, p) == s
  {
    PickEverything(s, 0, |s|, Satisfies(s, p));
    assert s[0..|s|] == s;
  }

  // ---------------------------------------------------------------------------
  // compactMap

  /** `xs.compactMap(f)`: the values `f` produces, in order, skipping the `nil`s. */
  function CompactMap<A, B>(xs: seq<A>, f: A -> Option<B>): (r: seq<B>)
    ensures |r| <= |xs|
    ensures forall y :: y in r ==> exists x :: x in xs && f(x) == Some(y)
    ensures (forall x :: x in xs ==> f(x).Some?) ==>
              |r| == |xs| && forall k :: 0 <= k < |r| ==> f(xs[k]) == Some(r[k])
  {
    if xs == [] then []
    else
      var rest := CompactMap(xs[1..], f);
      match f(xs[0])
      case Some(y) => [y] + rest
      case None => rest
  }

  /** `compactMap` over a sequence with a first element. */
  lemma CompactMapCons<A, B>(xs: seq<A>, f: A -> Option<B>)
    requires xs != []
    ensures CompactMap(xs, f) == (if f(xs[0]).Some? then [f(xs[0]).value] else []) + CompactMap(xs[1..], f)
  {
  }

  /** `compactMap` of one element: its value, or nothing when the closure fails. */
  lemma CompactMapSingle<A, B>(x: A, f: A -> Option<B>)
    ensures CompactMap([x], f) == if f(x).Some? then [f(x).value] else []
  {
    CompactMapCons([x], f);
  }

  /** `compactMap` works piecewise: on a concatenation it concatenates. With
      `CompactMapSingle` this fixes the result on every input: each value the
      closure produces, in input order. */
  lemma {:induction false} CompactMapAppend<A, B>(xs: seq<A>, ys: seq<A>, f: A -> Option<B>)
    ensures CompactMap(xs + ys, f) == CompactMap(xs, f) + CompactMap(ys, f)
  {
    if xs == [] {
      assert xs + ys == ys;
    } else {
      var tail := xs[1..];
      assert (xs + ys)[1..] == tail + ys;
      CompactMapAppend(tail, ys, f);
      CompactMapCons(xs, f);
      CompactMapCons(xs + ys, f);
      var head := if f(xs[0]).Some? then [f(xs[0]).value] else [];
      assert CompactMap(xs, f) == head + CompactMap(tail, f);
      assert CompactMap(xs + ys, f) == head + CompactMap(tail + ys, f);
    }
  }

  // ---------------------------------------------------------------------------
  // remove(atOffsets:) and move(fromOffsets:toOffset:)

  predicate OffsetsIn(offsets: set<nat>, n: nat) {
    forall i :: i in offsets ==> i < n
  }

  /** The positions below `n` that are not among `offsets`. */
  function Outside(n: nat, offsets: set<nat>): set<nat> {
    set i: nat | i < n && i !in offsets
  }

  /** `remove(atOffsets:)`: the elements at positions outside `offsets`, in order. */
  function RemoveAtOffsets<T>(s: seq<T>, offsets: set<nat>): seq<T>
    requires OffsetsIn(offsets, |s|)
  {
    Pick(s, Positions(0, |s|, Outside(|s|, offsets)))
  }

  /** The elements at the positions in `offsets`, in their original order. */
  function AtOffsets<T>(s: seq<T>, offsets: set<nat>): seq<T>
    requires OffsetsIn(offsets, |s|)
  {
    Pick(s, Positions(0, |s|, offsets))
  }

  /** The positions `remove(atOffsets:)` drops are exactly the offsets. */
  lemma RemovedPositionsAreOffsets(n: nat, offsets: set<nat>)
    requires OffsetsIn(offsets, n)
    ensures |Positions(0, n, offsets)| == |offsets|
  {
    var gone := Positions(0, n, offsets);
    PositionsSpec(0, n, offsets);
    var image := set k | 0 <= k < |gone| :: gone[k];
    assert image == offsets by {
      forall i | i in offsets ensures i in image {
        assert i in offsets;
        assert i in gone;
      }
    }
    InjectiveImageSize(gone);
  }

  /** `remove(atOffsets:)` drops exactly one element per offset, and what it
      drops are the elements at the offsets. */
  lemma RemoveAtOffsetsCounts<T>(s: seq<T>, offsets: set<nat>)
    requires OffsetsIn(offsets, |s|)
    ensures |RemoveAtOffsets(s, offsets)| == |s| - |offsets|
    ensures multiset(RemoveAtOffsets(s, offsets)) + multiset(AtOffsets(s, offsets)) == multiset(s)
  {
    var n := |s|;
    PickPartition(s, 0, n, Outside(|s|, offsets), offsets);
    assert s[0..n] == s;
    PositionsLengths(0, n, Outside(|s|, offsets), offsets);
    RemovedPositionsAreOffsets(n, offsets);
  }

  /** The offsets below position `i`. */
  function OffsetsBelow(offsets: set<nat>, i: nat): set<nat> {
    set j | j in offsets && j < i
  }

  /** Sets that agree on a range select the same positions in it. */
  lemma {:induction false} PositionsAgree(lo: nat, hi: nat, keep: set<nat>, keep': set<nat>)
    requires lo <= hi
    requires forall j :: lo <= j < hi ==> (j in keep) == (j in keep')
    ensures Positions(lo, hi, keep) == Positions(lo, hi, keep')
    decreases hi - lo
  {
    if lo < hi {
      PositionsAgree(lo + 1, hi, keep, keep');
    }
  }

  /** Below `i`, `remove(atOffsets:)` keeps `i` positions less the offsets there. */
  lemma KeptBelow(n: nat, offsets: set<nat>, i: nat)
    requires OffsetsIn(offsets, n) && i <= n
    ensures |Positions(0, i, Outside(n, offsets))| == i - |OffsetsBelow(offsets, i)|
  {
    PositionsLengths(0, i, Outside(n, offsets), offsets);
    PositionsAgree(0, i, offsets, OffsetsBelow(offsets, i));
    RemovedPositionsAreOffsets(i, OffsetsBelow(offsets, i));
  }

  /** The element at a position `i` outside the offsets lands at `i` less the
      number of offsets below `i`. */
  lemma RemoveAtOffsetsAt<T>(s: seq<T>, offsets: set<nat>, i: nat)
    requires OffsetsIn(offsets, |s|) && i < |s| && i !in offsets
    ensures 0 <= i - |OffsetsBelow(offsets, i)| < |RemoveAtOffsets(s, offsets)|
    ensures RemoveAtOffsets(s, offsets)[i - |OffsetsBelow(offsets, i)|] == s[i]
  {
    var n, keep := |s|, Outside(|s|, offsets);
    var before, from := Positions(0, i, keep), Positions(i, n, keep);
    PositionsSplit(0, i, n, keep);
    assert i in keep;
    assert from == [i] + Positions(i + 1, n, keep);
    KeptBelow(n, offsets, i);
    PickAt(s, before + from);
    assert (before + from)[|before|] == i;
  }

  /** Every element outside the offsets survives at its shifted position. */
  lemma RemoveAtOffsetsPositions<T>(s: seq<T>, offsets: set<nat>)
    requires OffsetsIn(offsets, |s|)
    ensures forall i :: 0 <= i < |s| && i !in offsets ==>
              0 <= i - |OffsetsBelow(offsets, i)| < |RemoveAtOffsets(s, offsets)|
              && RemoveAtOffsets(s, offsets)[i - |OffsetsBelow(offsets, i)|] == s[i]
  {
    forall i | 0 <= i < |s| && i !in offsets
      ensures 0 <= i - |OffsetsBelow(offsets, i)| < |RemoveAtOffsets(s, offsets)|
      ensures RemoveAtOffsets(s, offsets)[i - |OffsetsBelow(offsets, i)|] == s[i]
    {
      RemoveAtOffsetsAt(s, offsets, i);
    }
  }

  /** `remove(atOffsets:)` keeps every element at a position outside the
      offsets, in the original order. */
  lemma RemoveAtOffsetsKeepsOrder<T>(s: seq<T>, offsets: set<nat>)
    requires OffsetsIn(offsets, |s|)
    ensures IsSubsequence(RemoveAtOffsets(s, offsets), s)
    ensures forall i :: 0 <= i < |s| && i !in offsets ==> s[i] in RemoveAtOffsets(s, offsets)
  {
    var n := |s|;
    var kept := Positions(0, n, Outside(|s|, offsets));
    PositionsSpec(0, n, Outside(|s|, offsets));
    PickIncreasingIsSubsequence(s, kept);
    PickAt(s, kept);
    forall i | 0 <= i < n && i !in offsets ensures s[i] in RemoveAtOffsets(s, offsets) {
      assert i in Outside(|s|, offsets);
      assert i in kept;
      var k :| 0 <= k < |kept| && kept[k] == i;
      assert RemoveAtOffsets(s, offsets)[k] == s[i];
    }
  }

  /** `remove(at: i)`: the sequence without its element at `i`. */
  function RemoveAt<T>(s: seq<T>, i: nat): (r: seq<T>)
    requires i < |s|
    ensures |r| == |s| - 1
  {
    s[..i] + s[i + 1..]
  }

  /** Removing at one position is removing at the offset set holding just it. */
  lemma RemoveAtIsRemoveAtOffsets<T>(s: seq<T>, i: nat)
    requires i < |s|
    ensures RemoveAt(s, i) == RemoveAtOffsets(s, {i})
  {
    UnmovedAround(s, 0, i, |s|);
    assert s[..i] == s[0..i];
    assert s[i + 1..] == s[i + 1..|s|];
  }

  /** The positions `move(fromOffsets: offsets, toOffset: destination)` reads its
      result from: the unmoved positions before `destination`, then the moved
      ones, then the unmoved positions from `destination` on. */
  function MoveOrder(n: nat, offsets: set<nat>, destination: nat): (r: seq<nat>)
    requires destination <= n
    ensures Below(r, n)
  {
    Positions(0, destination, Outside(n, offsets)) + Positions(0, n, offsets)
      + Positions(destination, n, Outside(n, offsets))
  }

  /** `move(fromOffsets:toOffset:)`. */
  function Move<T>(s: seq<T>, offsets: set<nat>, destination: nat): seq<T>
    requires OffsetsIn(offsets, |s|) && destination <= |s|
  {
    Pick(s, MoveOrder(|s|, offsets, destination))
  }

  lemma DistinctConcat(xs: seq<nat>, ys: seq<nat>)
    requires Distinct(xs) && Distinct(ys)
    requires forall k, l :: 0 <= k < |xs| && 0 <= l < |ys| ==> xs[k] != ys[l]
    ensures Distinct(xs + ys)
  {
    var r := xs + ys;
    forall k, l | 0 <= k < l < |r| ensures r[k] != r[l] {
      if l < |xs| {
        assert r[k] == xs[k] && r[l] == xs[l];
      } else if k >= |xs| {
        assert r[k] == ys[k - |xs|] && r[l] == ys[l - |xs|];
      } else {
        assert r[k] == xs[k] && r[l] == ys[l - |xs|];
      }
    }
  }

  /** `move` reads every position at most once. */
  lemma MoveOrderDistinct(n: nat, offsets: set<nat>, destination: nat)
    requires destination <= n
    ensures Distinct(MoveOrder(n, offsets, destination))
  {
    var a := Positions(0, destination, Outside(n, offsets));
    var b := Positions(0, n, offsets);
    var c := Positions(destination, n, Outside(n, offsets));
    PositionsSpec(0, destination, Outside(n, offsets));
    PositionsSpec(0, n, offsets);
    PositionsSpec(destination, n, Outside(n, offsets));
    assert forall k :: 0 <= k < |a| ==> a[k] !in offsets;
    assert forall k :: 0 <= k < |c| ==> c[k] !in offsets;
    DistinctConcat(a, b);
    DistinctConcat(a + b, c);
  }

  /** `Move` splits into its three blocks. */
  lemma MoveBlocks<T>(s: seq<T>, offsets: set<nat>, destination: nat)
    requires OffsetsIn(offsets, |s|) && destination <= |s|
    ensures Move(s, offsets, destination)
         == Pick(s, Positions(0, destination, Outside(|s|, offsets))) + AtOffsets(s, offsets)
            + Pick(s, Positions(destination, |s|, Outside(|s|, offsets)))
  {
    var n := |s|;
    var a := Positions(0, destination, Outside(|s|, offsets));
    var b := Positions(0, n, offsets);
    var c := Positions(destination, n, Outside(|s|, offsets));
    PickAppend(s, a, b);
    PickAppend(s, a + b, c);
  }

  /** `move` is a permutation: nothing is lost, nothing is duplicated. */
  lemma MoveIsPermutation<T>(s: seq<T>, offsets: set<nat>, destination: nat)
    requires OffsetsIn(offsets, |s|) && destination <= |s|
    ensures |Move(s, offsets, destination)| == |s|
    ensures multiset(Move(s, offsets, destination)) == multiset(s)
  {
    var n := |s|;
    var a := Positions(0, destination, Outside(|s|, offsets));
    var c := Positions(destination, n, Outside(|s|, offsets));
    var pa, pb, pc := Pick(s, a), AtOffsets(s, offsets), Pick(s, c);
    MoveBlocks(s, offsets, destination);
    PositionsSplit(0, destination, n, Outside(|s|, offsets));
    PickAppend(s, a, c);
    assert RemoveAtOffsets(s, offsets) == pa + pc;
    RemoveAtOffsetsCounts(s, offsets);
    calc {
      multiset(Move(s, offsets, destination));
      multiset(pa + pb + pc);
      multiset(pa) + multiset(pb) + multiset(pc);
      multiset(pa + pc) + multiset(pb);
      multiset(s);
    }
    assert |multiset(Move(s, offsets, destination))| == |Move(s, offsets, destination)|;
  }

  lemma ThreeBlocks<T>(r: seq<T>, a: seq<T>, b: seq<T>, c: seq<T>)
    requires r == a + b + c
    ensures r[|a|..|a| + |b|] == b
    ensures r[..|a|] + r[|a| + |b|..] == a + c
  {
    assert r[..|a|] == a;
    assert r[|a| + |b|..] == c;
  }

  /** The shape of `move`'s result: the unmoved elements before `destination`,
      then the moved ones in their original order, then the other unmoved ones;
      taking the moved block out leaves `remove(atOffsets:)` of the input, and the
      element at `destination`, when it is not moved, follows the moved block. */
  lemma MoveShape<T>(s: seq<T>, offsets: set<nat>, destination: nat)
    requires OffsetsIn(offsets, |s|) && destination <= |s|
    ensures var r := Move(s, offsets, destination);
            var before := |Positions(0, destination, Outside(|s|, offsets))|;
            var moved := AtOffsets(s, offsets);
            && before + |moved| <= |r|
            && r[before..before + |moved|] == moved
            && r[..before] + r[before + |moved|..] == RemoveAtOffsets(s, offsets)
            && (destination < |s| && destination !in offsets ==> r[before + |moved|] == s[destination])
  {
    var n := |s|;
    var a := Positions(0, destination, Outside(|s|, offsets));
    var c := Positions(destination, n, Outside(|s|, offsets));
    var r := Move(s, offsets, destination);
    var pa, pb, pc := Pick(s, a), AtOffsets(s, offsets), Pick(s, c);
    MoveBlocks(s, offsets, destination);
    ThreeBlocks(r, pa, pb, pc);
    PositionsSplit(0, destination, n, Outside(|s|, offsets));
    PickAppend(s, a, c);
    if destination < n && destination !in offsets {
      FirstUnmoved(s, offsets, destination);
      assert r[|pa| + |pb|] == pc[0];
    }
  }

  lemma FirstUnmoved<T>(s: seq<T>, offsets: set<nat>, destination: nat)
    requires destination < |s| && destination !in offsets
    ensures var c := Pick(s, Positions(destination, |s|, Outside(|s|, offsets)));
            |c| > 0 && c[0] == s[destination]
  {
    PickCons(s, destination, Positions(destination + 1, |s|, Outside(|s|, offsets)));
  }

  /** Moving one element is picking the positions in `{i}`: just `i`. */
  lemma SingleOffset<T>(s: seq<T>, i: nat)
    requires i < |s|
    ensures AtOffsets(s, {i}) == [s[i]]
  {
    var n, o := |s|, {i};
    PositionsSplit(0, i, n, o);
    PositionsSplit(i, i + 1, n, o);
    NoneSelected(0, i, o);
    NoneSelected(i + 1, n, o);
    assert Positions(0, n, o) == [i];
  }

  /** A set that leaves out only position `i` of a range picks the range without `i`. */
  lemma {:induction false} PickAllBut<T>(s: seq<T>, lo: nat, i: nat, hi: nat, keep: set<nat>)
    requires lo <= i < hi <= |s| && i !in keep
    requires forall j :: lo <= j < i ==> j in keep
    requires forall j :: i < j < hi ==> j in keep
    ensures Pick(s, Positions(lo, hi, keep)) == s[lo..i] + s[i + 1..hi]
    decreases i - lo
  {
    if lo == i {
      assert Positions(lo, hi, keep) == Positions(i + 1, hi, keep);
      PickEverything(s, i + 1, hi, keep);
    } else {
      PickAllBut(s, lo + 1, i, hi, keep);
      PickSelectedHead(s, lo, hi, keep);
      SliceHeadAround(s, lo, i, hi);
    }
  }

  lemma PickSelectedHead<T>(s: seq<T>, lo: nat, hi: nat, keep: set<nat>)
    requires lo < hi <= |s| && lo in keep
    ensures Pick(s, Positions(lo, hi, keep)) == [s[lo]] + Pick(s, Positions(lo + 1, hi, keep))
  {
    PickCons(s, lo, Positions(lo + 1, hi, keep));
  }

  lemma SliceHeadAround<T>(s: seq<T>, lo: nat, i: nat, hi: nat)
    requires lo < i < hi <= |s|
    ensures s[lo..i] + s[i + 1..hi] == [s[lo]] + (s[lo + 1..i] + s[i + 1..hi])
  {
    assert s[lo..i] == [s[lo]] + s[lo + 1..i];
  }

  /** The unmoved elements of a range that holds position `i`, when only `i` moves. */
  lemma UnmovedAround<T>(s: seq<T>, lo: nat, i: nat, hi: nat)
    requires lo <= i < hi <= |s|
    ensures Pick(s, Positions(lo, hi, Outside(|s|, {i}))) == s[lo..i] + s[i + 1..hi]
  {
    PickAllBut(s, lo, i, hi, Outside(|s|, {i}));
  }

  /** The unmoved elements before `destination`, in order. */
  function UnmovedBefore<T>(s: seq<T>, offsets: set<nat>, destination: nat): seq<T>
    requires destination <= |s|
  {
    Pick(s, Positions(0, destination, Outside(|s|, offsets)))
  }

  /** The unmoved elements from `destination` on, in order. */
  function UnmovedFrom<T>(s: seq<T>, offsets: set<nat>, destination: nat): seq<T>
    requires destination <= |s|
  {
    Pick(s, Positions(destination, |s|, Outside(|s|, offsets)))
  }

  lemma MoveInBlocks<T>(s: seq<T>, offsets: set<nat>, destination: nat)
    requires OffsetsIn(offsets, |s|) && destination <= |s|
    ensures Move(s, offsets, destination)
         == UnmovedBefore(s, offsets, destination) + AtOffsets(s, offsets)
            + UnmovedFrom(s, offsets, destination)
  {
    MoveBlocks(s, offsets, destination);
  }

  lemma BeforeForward<T>(s: seq<T>, i: nat, destination: nat)
    requires i < destination <= |s|
    ensures UnmovedBefore(s, {i}, destination) == s[..i] + s[i + 1..destination]
  {
    UnmovedAround(s, 0, i, destination);
    assert s[..i] == s[0..i];
  }

  lemma FromForward<T>(s: seq<T>, i: nat, destination: nat)
    requires i < destination <= |s|
    ensures UnmovedFrom(s, {i}, destination) == s[destination..]
  {
    PickEverything(s, destination, |s|, Outside(|s|, {i}));
  }

  lemma BeforeBackward<T>(s: seq<T>, i: nat, destination: nat)
    requires destination <= i < |s|
    ensures UnmovedBefore(s, {i}, destination) == s[..destination]
  {
    PickEverything(s, 0, destination, Outside(|s|, {i}));
  }

  lemma FromBackward<T>(s: seq<T>, i: nat, destination: nat)
    requires destination <= i < |s|
    ensures UnmovedFrom(s, {i}, destination) == s[destination..i] + s[i + 1..]
  {
    UnmovedAround(s, destination, i, |s|);
    assert s[i + 1..] == s[i + 1..|s|];
  }

  /** Moving one element forward. */
  lemma MoveForward<T>(s: seq<T>, i: nat, destination: nat)
    requires i < destination <= |s|
    ensures Move(s, {i}, destination) == s[..i] + s[i + 1..destination] + [s[i]] + s[destination..]
  {
    MoveInBlocks(s, {i}, destination);
    SingleOffset(s, i);
    BeforeForward(s, i, destination);
    FromForward(s, i, destination);
  }

  /** Moving one element backward, or leaving it where it is. */
  lemma MoveBackward<T>(s: seq<T>, i: nat, destination: nat)
    requires destination <= i < |s|
    ensures Move(s, {i}, destination) == s[..destination] + [s[i]] + s[destination..i] + s[i + 1..]
  {
    MoveInBlocks(s, {i}, destination);
    SingleOffset(s, i);
    BeforeBackward(s, i, destination);
    FromBackward(s, i, destination);
  }

  /** Moving a single element, written with slices: the usual description of
      dragging one row of a list. */
  lemma MoveOne<T>(s: seq<T>, i: nat, destination: nat)
    requires i < |s| && destination <= |s|
    ensures Move(s, {i}, destination) ==
      if i < destination then s[..i] + s[i + 1..destination] + [s[i]] + s[destination..]
      else s[..destination] + [s[i]] + s[destination..i] + s[i + 1..]
  {
    if i < destination {
      MoveForward(s, i, destination);
    } else {
      MoveBackward(s, i, destination);
    }
  }

  /** Worked examples on a three-element list: moving the first element to
      offset 2 puts it second, to offset 3 puts it last, and moving the last
      element to offset 0 puts it first. */
  lemma MoveFirstToTwo<T>(a: T, b: T, c: T)
    ensures Move([a, b, c], {0}, 2) == [b, a, c]
  {
    var s := [a, b, c];
    MoveForward(s, 0, 2);
    assert s[..0] + s[1..2] + [s[0]] + s[2..] == [b, a, c];
  }

  lemma MoveFirstToEnd<T>(a: T, b: T, c: T)
    ensures Move([a, b, c], {0}, 3) == [b, c, a]
  {
    var s := [a, b, c];
    MoveForward(s, 0, 3);
    assert s[..0] + s[1..3] + [s[0]] + s[3..] == [b, c, a];
  }

  lemma MoveLastToFront<T>(a: T, b: T, c: T)
    ensures Move([a, b, c], {2}, 0) == [c, a, b]
  {
    var s := [a, b, c];
    MoveBackward(s, 2, 0);
    assert s[..0] + [s[2]] + s[0..2] + s[3..] == [c, a, b];
  }
}
