/**
  Sequence shapes shared by the pipeline: a keep-and-transform pass over a
  list (used for target cells, metadata cells, CSV rows and stale records)
  and the cutting of a list into consecutive bounded slices (used for upload
  chunks and delete batches).
 */
module Seqs {
  import opened Strings

  /** Applies `f` to each element in order and keeps the `Some` results. */
  function FilterMap<A, B>(xs: seq<A>, f: A -> Option<B>): (r: seq<B>)
    ensures |r| <= |xs|
  {
    if |xs| == 0 then []
    else match f(xs[0])
      case Some(y) => [y] + FilterMap(xs[1..], f)
      case None => FilterMap(xs[1..], f)
  }

  /** The pass works element by element: it distributes over concatenation, so order is kept. */
  lemma {:induction false} FilterMapAppend<A, B>(xs: seq<A>, ys: seq<A>, f: A -> Option<B>)
    ensures FilterMap(xs + ys, f) == FilterMap(xs, f) + FilterMap(ys, f)
  {
    if |xs| == 0 {
      assert xs + ys == ys;
    } else {
      assert (xs + ys)[1..] == xs[1..] + ys;
      FilterMapAppend(xs[1..], ys, f);
    }
  }

  /** An output element is exactly the image of some input element that `f` keeps. */
  lemma {:induction false} FilterMapMembers<A, B>(xs: seq<A>, f: A -> Option<B>, y: B)
    ensures y in FilterMap(xs, f) <==> exists i :: 0 <= i < |xs| && f(xs[i]) == Some(y)
  {
    if |xs| > 0 {
      FilterMapMembers(xs[1..], f, y);
      if y in FilterMap(xs, f) && f(xs[0]) != Some(y) {
        assert y in FilterMap(xs[1..], f);
        var i :| 0 <= i < |xs[1..]| && f(xs[1..][i]) == Some(y);
        assert f(xs[i + 1]) == Some(y);
      }
      if exists i :: 0 <= i < |xs| && f(xs[i]) == Some(y) {
        var i :| 0 <= i < |xs| && f(xs[i]) == Some(y);
        if i > 0 {
          assert f(xs[1..][i - 1]) == Some(y);
        }
      }
    }
  }

  /** When `f` keeps nothing, the pass yields nothing. */
  lemma {:induction false} FilterMapNone<A, B>(xs: seq<A>, f: A -> Option<B>)
    requires forall i :: 0 <= i < |xs| ==> f(xs[i]).None?
    ensures FilterMap(xs, f) == []
  {
    if |xs| > 0 {
      assert forall i :: 0 <= i < |xs[1..]| ==> xs[1..][i] == xs[i + 1];
      FilterMapNone(xs[1..], f);
    }
  }

  /** When `f` keeps everything, the pass is a plain element-wise map. */
  lemma {:induction false} FilterMapAll<A, B>(xs: seq<A>, f: A -> Option<B>)
    requires forall i :: 0 <= i < |xs| ==> f(xs[i]).Some?
    ensures |FilterMap(xs, f)| == |xs|
    ensures forall i :: 0 <= i < |xs| ==> Some(FilterMap(xs, f)[i]) == f(xs[i])
  {
    if |xs| > 0 {
      assert forall i :: 0 <= i < |xs[1..]| ==> xs[1..][i] == xs[i + 1];
      FilterMapAll(xs[1..], f);
    }
  }

  /** Concatenation of a list of lists. */
  function Flatten<T>(xss: seq<seq<T>>): seq<T> {
    if |xss| == 0 then [] else xss[0] + Flatten(xss[1..])
  }

  lemma {:induction false} FlattenAppend<T>(a: seq<seq<T>>, b: seq<seq<T>>)
    ensures Flatten(a + b) == Flatten(a) + Flatten(b)
  {
    if |a| == 0 {
      assert a + b == b;
    } else {
      assert (a + b)[1..] == a[1..] + b;
      FlattenAppend(a[1..], b);
    }
  }

  function Min(a: int, b: int): int { if a <= b then a else b }

  /** Number of slices of at most `k` elements needed to cover `n` elements. */
  function CeilDiv(n: nat, k: nat): (r: nat)
    requires k >= 1
    ensures r > 0 <==> n > 0
    decreases n
  {
    if n == 0 then 0 else 1 + CeilDiv(n - Min(k, n), k)
  }

  /** `CeilDiv` is the integer ceiling of `n / k`: the least `q` with `q * k >= n`. */
  lemma {:induction false} CeilDivIsCeiling(n: nat, k: nat)
    requires k >= 1
    ensures CeilDiv(n, k) * k >= n
    ensures n > 0 ==> (CeilDiv(n, k) - 1) * k < n
    decreases n
  {
    if n > 0 {
      CeilDivIsCeiling(n - Min(k, n), k);
      var q := CeilDiv(n - Min(k, n), k);
      assert CeilDiv(n, k) * k == q * k + k;
      if n > k {
        assert (CeilDiv(n, k) - 1) * k == q * k;
        assert (q - 1) * k + k == q * k;
      }
    }
  }

  /** Where slice `i` starts: `i` full slices in. */
  function Offset(i: nat, size: nat): nat {
    if i == 0 then 0 else Offset(i - 1, size) + size
  }

  lemma {:induction false} OffsetIsProduct(i: nat, size: nat)
    ensures Offset(i, size) == i * size
  {
    if i > 0 {
      OffsetIsProduct(i - 1, size);
      assert (i - 1) * size + size == i * size;
    }
  }

  /** Every slice of the `CeilDiv(n, k)` starts inside the list. */
  lemma {:induction false} OffsetInside(n: nat, k: nat, i: nat)
    requires k >= 1 && i < CeilDiv(n, k)
    ensures Offset(i, k) < n
    decreases n
  {
    if i > 0 {
      OffsetInside(n - Min(k, n), k, i - 1);
    }
  }

  /** The slice after the last one starts at or past the end. */
  lemma {:induction false} OffsetPastEnd(n: nat, k: nat)
    requires k >= 1
    ensures Offset(CeilDiv(n, k), k) >= n
    decreases n
  {
    if n > 0 {
      OffsetPastEnd(n - Min(k, n), k);
    }
  }

  /**
    Cuts `xs` into `ceil(|xs| / size)` consecutive slices: slice `i` is
    `[i * size, min(i * size + size, |xs|))`, so every slice but the last
    is full.
   */
  function Chunks<T>(xs: seq<T>, size: nat): (r: seq<seq<T>>)
    requires size >= 1
    ensures |r| == CeilDiv(|xs|, size)
  {
    seq(CeilDiv(|xs|, size), i requires 0 <= i => Slice(xs, size, i))
  }

  /** Slice `i`, clipped to the list. */
  function Slice<T>(xs: seq<T>, size: nat, i: nat): seq<T> {
    xs[Min(Offset(i, size), |xs|)..Min(Offset(i, size) + size, |xs|)]
  }

  /** Chunk `i` is the slice `[Offset(i), min(Offset(i) + size, |xs|))`, and it is not empty. */
  lemma ChunkAtOffset<T>(xs: seq<T>, size: nat, i: nat)
    requires size >= 1 && i < |Chunks(xs, size)|
    ensures Offset(i, size) < |xs|
    ensures Chunks(xs, size)[i] == xs[Offset(i, size)..Min(Offset(i, size) + size, |xs|)]
  {
    OffsetInside(|xs|, size, i);
    var o := Offset(i, size);
    assert Chunks(xs, size)[i] == Slice(xs, size, i);
  }

  /** Chunk `i` is the slice `[i * size, min(i * size + size, |xs|))`. */
  lemma ChunkAt<T>(xs: seq<T>, size: nat, i: nat)
    requires size >= 1 && i < |Chunks(xs, size)|
    ensures i * size < |xs|
    ensures Chunks(xs, size)[i] == xs[i * size..Min(i * size + size, |xs|)]
  {
    ChunkAtOffset(xs, size, i);
    OffsetIsProduct(i, size);
  }

  /** Every chunk holds between 1 and `size` elements, and all but the last exactly `size`. */
  lemma ChunkSizes<T>(xs: seq<T>, size: nat)
    requires size >= 1
    ensures forall i :: 0 <= i < |Chunks(xs, size)| ==> 0 < |Chunks(xs, size)[i]| <= size
    ensures forall i :: 0 <= i < |Chunks(xs, size)| - 1 ==> |Chunks(xs, size)[i]| == size
  {
    forall i | 0 <= i < |Chunks(xs, size)|
      ensures 0 < |Chunks(xs, size)[i]| <= size
      ensures i < |Chunks(xs, size)| - 1 ==> |Chunks(xs, size)[i]| == size
    {
      ChunkAtOffset(xs, size, i);
      if i < |Chunks(xs, size)| - 1 {
        OffsetInside(|xs|, size, i + 1);
      }
    }
  }

  /** Joining a prefix one element longer appends that element. */
  lemma FlattenSnoc<T>(xss: seq<seq<T>>, b: nat)
    requires 0 < b <= |xss|
    ensures Flatten(xss[..b]) == Flatten(xss[..b - 1]) + xss[b - 1]
  {
    assert xss[..b] == xss[..b - 1] + [xss[b - 1]];
    FlattenAppend(xss[..b - 1], [xss[b - 1]]);
    assert Flatten([xss[b - 1]]) == xss[b - 1] + Flatten([]);
  }

  /** The first `b` chunks, joined, are the first `min(Offset(b), |xs|)` elements. */
  lemma {:induction false} FlattenChunksPrefix<T>(xs: seq<T>, size: nat, b: nat)
    requires size >= 1 && b <= |Chunks(xs, size)|
    ensures Flatten(Chunks(xs, size)[..b]) == xs[..Min(Offset(b, size), |xs|)]
    decreases b
  {
    var cs := Chunks(xs, size);
    if b == 0 {
      assert cs[..0] == [];
    } else {
      FlattenChunksPrefix(xs, size, b - 1);
      ChunkAtOffset(xs, size, b - 1);
      var lo := Offset(b - 1, size);
      assert Min(lo, |xs|) == lo;
      PrefixStep(xs, cs, b, lo, Min(lo + size, |xs|));
    }
  }

  /** A joined prefix followed by the next slice is the longer joined prefix. */
  lemma PrefixStep<T>(xs: seq<T>, xss: seq<seq<T>>, b: nat, lo: nat, hi: nat)
    requires 0 < b <= |xss| && lo <= hi <= |xs|
    requires Flatten(xss[..b - 1]) == xs[..lo] && xss[b - 1] == xs[lo..hi]
    ensures Flatten(xss[..b]) == xs[..hi]
  {
    FlattenSnoc(xss, b);
    JoinSlices(xs, lo, hi);
  }

  /** Joined, the chunks give back the list. */
  lemma ChunksFlatten<T>(xs: seq<T>, size: nat)
    requires size >= 1
    ensures Flatten(Chunks(xs, size)) == xs
  {
    var cs := Chunks(xs, size);
    FlattenChunksPrefix(xs, size, |cs|);
    OffsetPastEnd(|xs|, size);
    assert cs[..|cs|] == cs;
    assert xs[..|xs|] == xs;
  }

  /** Chunk `i + 1` of a list longer than `size` is chunk `i` of the list without its first `size` elements. */
  lemma ChunkAfterFirst<T>(xs: seq<T>, size: nat, i: nat)
    requires size >= 1 && size < |xs| && i + 1 < |Chunks(xs, size)|
    ensures i < |Chunks(xs[size..], size)|
    ensures Chunks(xs, size)[i + 1] == Chunks(xs[size..], size)[i]
  {
    var rest := xs[size..];
    assert Min(size, |xs|) == size;
    assert |rest| == |xs| - size;
    assert CeilDiv(|xs|, size) == 1 + CeilDiv(|rest|, size);
    ChunkAtOffset(xs, size, i + 1);
    ChunkAtOffset(rest, size, i);
    var a := Offset(i, size);
    assert Offset(i + 1, size) == a + size;
    SliceOfRest(xs, size, a);
  }

  /** A slice of the list without its first `size` elements, as a slice of the whole list. */
  lemma SliceOfRest<T>(xs: seq<T>, size: nat, a: nat)
    requires size <= |xs| && a <= |xs| - size
    ensures xs[size..][a..Min(a + size, |xs| - size)] == xs[a + size..Min(a + size + size, |xs|)]
  {
  }

  /** Two adjacent slices from the start join into one. */
  lemma JoinSlices<T>(xs: seq<T>, lo: nat, hi: nat)
    requires lo <= hi <= |xs|
    ensures xs[..lo] + xs[lo..hi] == xs[..hi]
  {
  }

  /**
    The same chunks come from the loop that takes `min(size, remaining)`
    elements off the front until nothing is left.
   */
  lemma ChunksFront<T>(xs: seq<T>, size: nat)
    requires size >= 1 && |xs| > 0
    ensures var n := Min(size, |xs|);
      Chunks(xs, size) == [xs[..n]] + Chunks(xs[n..], size)
  {
    var n := Min(size, |xs|);
    var cs, tail := Chunks(xs, size), Chunks(xs[n..], size);
    assert |cs| == 1 + |tail|;
    ChunkAtOffset(xs, size, 0);
    assert cs[0] == xs[..n];
    forall i | 0 < i < |cs|
      ensures cs[i] == tail[i - 1]
    {
      ChunkAfterFirst(xs, size, i - 1);
    }
  }
}
