/** Order-preserving selections over sequences: the two shapes every stage after the
    explosion takes (a boolean-mask filter, and "keep the first element with each key",
    which is both dict.fromkeys on a list and DataFrame.drop_duplicates(keep="first")). */
module Seqs {

  datatype Option<+T> = None | Some(value: T)

  /** idx lists, in strictly increasing order, the positions of xs that make up r. */
  ghost predicate SubseqVia<T>(r: seq<T>, xs: seq<T>, idx: seq<nat>) {
    && |idx| == |r|
    && (forall k :: 0 <= k < |idx| ==> idx[k] < |xs| && r[k] == xs[idx[k]])
    && (forall k, l :: 0 <= k < l < |idx| ==> idx[k] < idx[l])
  }

  ghost predicate IsSubseq<T>(r: seq<T>, xs: seq<T>) {
    exists idx :: SubseqVia(r, xs, idx)
  }

  lemma SubseqExtend<T>(r: seq<T>, xs: seq<T>, idx: seq<nat>, x: T, keep: bool)
    requires SubseqVia(r, xs, idx)
    ensures keep ==> SubseqVia(r + [x], xs + [x], idx + [|xs|])
    ensures !keep ==> SubseqVia(r, xs + [x], idx)
  {
  }

  lemma ConcatAssoc<T>(a: seq<T>, b: seq<T>, c: seq<T>)
    ensures (a + b) + c == a + (b + c)
  {
  }

  /** Regrouping a concatenation known piece by piece. */
  lemma SnocRegroup<T>(abx: seq<T>, ab: seq<T>, a: seq<T>, b: seq<T>, bx: seq<T>, x: seq<T>)
    requires abx == ab + x && ab == a + b && bx == b + x
    ensures abx == a + bx
  {
  }

  lemma PrefixStep<T>(xs: seq<T>, e: nat)
    requires e < |xs|
    ensures xs[..e + 1] == xs[..e] + [xs[e]]
  {
  }

  /** Being a subsequence is transitive. */
  lemma SubseqTransitive<T>(a: seq<T>, b: seq<T>, c: seq<T>)
    requires IsSubseq(a, b) && IsSubseq(b, c)
    ensures IsSubseq(a, c)
  {
    var i :| SubseqVia(a, b, i);
    var j :| SubseqVia(b, c, j);
    var ij := seq(|i|, k requires 0 <= k < |i| => j[i[k]]);
    assert SubseqVia(a, c, ij);
  }

  lemma SubseqRefl<T>(xs: seq<T>)
    ensures IsSubseq(xs, xs)
  {
    var idx := seq(|xs|, k requires 0 <= k < |xs| => k as nat);
    assert SubseqVia(xs, xs, idx);
  }

  /** Elements of a subsequence are elements of the sequence. */
  lemma SubseqMembers<T>(r: seq<T>, xs: seq<T>)
    requires IsSubseq(r, xs)
    ensures |r| <= |xs|
    ensures forall x :: x in r ==> x in xs
  {
    var idx :| SubseqVia(r, xs, idx);
    IncreasingBound(idx, |xs|);
  }

  lemma {:induction false} IncreasingBound(idx: seq<nat>, n: nat)
    requires forall k :: 0 <= k < |idx| ==> idx[k] < n
    requires forall k, l :: 0 <= k < l < |idx| ==> idx[k] < idx[l]
    ensures |idx| <= n
  {
    if |idx| > 0 {
      var m := idx[|idx| - 1];
      IncreasingBound(idx[..|idx| - 1], m);
    }
  }

  /** The elements of xs that satisfy p, in their order: pandas' `df[mask]`. */
  function Filter<T>(xs: seq<T>, p: T -> bool): seq<T>
    decreases |xs|
  {
    if xs == [] then []
    else Filter(xs[..|xs| - 1], p) + (if p(xs[|xs| - 1]) then [xs[|xs| - 1]] else [])
  }

  /** r is made of exactly the positions of xs whose element satisfies p, in order:
      what a boolean mask selects, duplicates included. */
  ghost predicate SelectedBy<T>(r: seq<T>, xs: seq<T>, p: T -> bool) {
    exists idx :: SubseqVia(r, xs, idx) && forall j :: 0 <= j < |xs| ==> (j in idx <==> p(xs[j]))
  }

  /** Filter keeps exactly the positions satisfying p, in order, so as many elements
      as satisfy p. */
  lemma FilterSpec<T>(xs: seq<T>, p: T -> bool)
    ensures SelectedBy(Filter(xs, p), xs, p)
    ensures |Filter(xs, p)| == Count(xs, p)
    ensures IsSubseq(Filter(xs, p), xs)
    ensures forall x :: x in Filter(xs, p) ==> p(x)
    ensures forall j :: 0 <= j < |xs| && p(xs[j]) ==> xs[j] in Filter(xs, p)
  {
    var idx := FilterSubseq(xs, p);
    FilterLength(xs, p);
    FilterSound(xs, p);
    FilterComplete(xs, p);
  }

  lemma {:induction false} FilterSubseq<T>(xs: seq<T>, p: T -> bool) returns (idx: seq<nat>)
    ensures SubseqVia(Filter(xs, p), xs, idx)
    ensures forall j :: 0 <= j < |xs| ==> (j in idx <==> p(xs[j]))
    decreases |xs|
  {
    if xs == [] {
      idx := [];
    } else {
      var init, x := xs[..|xs| - 1], xs[|xs| - 1];
      var idx0 := FilterSubseq(init, p);
      SubseqExtend(Filter(init, p), init, idx0, x, p(x));
      assert init + [x] == xs;
      idx := if p(x) then idx0 + [|init|] else idx0;
      forall j | 0 <= j < |xs| ensures j in idx <==> p(xs[j]) {
        if j < |init| {
          assert xs[j] == init[j];
          assert |init| !in idx0;
        } else {
          assert forall k :: 0 <= k < |idx0| ==> idx0[k] < |init|;
        }
      }
    }
  }

  lemma {:induction false} FilterSound<T>(xs: seq<T>, p: T -> bool)
    ensures forall x :: x in Filter(xs, p) ==> p(x)
    decreases |xs|
  {
    if xs != [] { FilterSound(xs[..|xs| - 1], p); }
  }

  lemma {:induction false} FilterComplete<T>(xs: seq<T>, p: T -> bool)
    ensures forall j :: 0 <= j < |xs| && p(xs[j]) ==> xs[j] in Filter(xs, p)
    decreases |xs|
  {
    if xs != [] {
      var init := xs[..|xs| - 1];
      FilterComplete(init, p);
      forall j | 0 <= j < |xs| && p(xs[j]) ensures xs[j] in Filter(xs, p) {
        if j < |init| { assert xs[j] == init[j]; }
      }
    }
  }

  predicate KeyIn<T, K(==)>(k: K, xs: seq<T>, key: T -> K) {
    exists j :: 0 <= j < |xs| && key(xs[j]) == k
  }

  /** Position j holds the first element of xs with its key. */
  ghost predicate FirstOfKey<T, K>(xs: seq<T>, key: T -> K, j: nat)
    requires j < |xs|
  {
    !KeyIn(key(xs[j]), xs[..j], key)
  }

  /** The first element of xs for each key, in their order: `list(dict.fromkeys(xs))`
      when key is the identity, `drop_duplicates(subset=[col], keep="first")` when key
      reads a column. */
  function KeepFirstBy<T, K(==)>(xs: seq<T>, key: T -> K): seq<T>
    decreases |xs|
  {
    if xs == [] then []
    else
      var init, x := xs[..|xs| - 1], xs[|xs| - 1];
      KeepFirstBy(init, key) + (if KeyIn(key(x), init, key) then [] else [x])
  }

  /** KeepFirstBy selects exactly the first-of-key positions, in order. */
  lemma {:induction false} KeepFirstBySpec<T, K>(xs: seq<T>, key: T -> K)
    returns (idx: seq<nat>)
    ensures SubseqVia(KeepFirstBy(xs, key), xs, idx)
    ensures forall j :: 0 <= j < |xs| ==> (j in idx <==> FirstOfKey(xs, key, j))
    decreases |xs|
  {
    if xs == [] {
      idx := [];
    } else {
      var init, x := xs[..|xs| - 1], xs[|xs| - 1];
      var idx0 := KeepFirstBySpec(init, key);
      var keep := !KeyIn(key(x), init, key);
      SubseqExtend(KeepFirstBy(init, key), init, idx0, x, keep);
      assert init + [x] == xs;
      idx := if keep then idx0 + [|init|] else idx0;
      forall j | 0 <= j < |xs| ensures j in idx <==> FirstOfKey(xs, key, j) {
        if j < |init| {
          assert xs[..j] == init[..j];
          assert |init| !in idx0;
        } else {
          assert xs[..j] == init;
          assert forall k :: 0 <= k < |idx0| ==> idx0[k] < |init|;
        }
      }
    }
  }

  /** After KeepFirstBy no two elements share a key. */
  lemma KeepFirstByDistinct<T, K>(xs: seq<T>, key: T -> K)
    ensures forall a, b :: 0 <= a < b < |KeepFirstBy(xs, key)| ==>
              key(KeepFirstBy(xs, key)[a]) != key(KeepFirstBy(xs, key)[b])
  {
    var r := KeepFirstBy(xs, key);
    var idx := KeepFirstBySpec(xs, key);
    forall a, b | 0 <= a < b < |r| ensures key(r[a]) != key(r[b]) {
      assert idx[b] in idx;
      assert FirstOfKey(xs, key, idx[b]);
      assert xs[..idx[b]][idx[a]] == r[a];
    }
  }

  /** Every key of xs is still represented after KeepFirstBy. */
  lemma KeepFirstByCovers<T, K>(xs: seq<T>, key: T -> K, j: nat)
    requires j < |xs|
    ensures KeyIn(key(xs[j]), KeepFirstBy(xs, key), key)
  {
    var idx := KeepFirstBySpec(xs, key);
    var j0 := FirstIndexOfKey(xs, key, j);
    assert j0 in idx;
    var k :| 0 <= k < |idx| && idx[k] == j0;
  }

  /** The first position whose key is the key at position j. */
  lemma {:induction false} FirstIndexOfKey<T, K>(xs: seq<T>, key: T -> K, j: nat)
    returns (j0: nat)
    requires j < |xs|
    ensures j0 <= j && key(xs[j0]) == key(xs[j]) && FirstOfKey(xs, key, j0)
    decreases j
  {
    if FirstOfKey(xs, key, j) {
      j0 := j;
    } else {
      var i :| 0 <= i < j && key(xs[..j][i]) == key(xs[j]);
      j0 := FirstIndexOfKey(xs, key, i);
    }
  }

  /** The number of elements of xs satisfying p: the sum of a boolean mask. */
  function Count<T>(xs: seq<T>, p: T -> bool): nat
    decreases |xs|
  {
    if xs == [] then 0 else Count(xs[..|xs| - 1], p) + (if p(xs[|xs| - 1]) then 1 else 0)
  }

  /** Filter keeps as many elements as satisfy p. */
  lemma {:induction false} FilterLength<T>(xs: seq<T>, p: T -> bool)
    ensures |Filter(xs, p)| == Count(xs, p)
    decreases |xs|
  {
    if xs != [] { FilterLength(xs[..|xs| - 1], p); }
  }
}
