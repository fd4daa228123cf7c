/** Splitting a list into pages of at most `size` items, as the loop
    `for (let i = 0; i < embeds.length; i += 10) chunks.push(embeds.slice(i, i + 10))`
    does; `slice` stops at the end of the list. */
module Chunking {

  function Min(a: int, b: int): int {
    if a <= b then a else b
  }

  /** The pages of `s`, first to last. Every page holds between one and
      `size` items, every page but the last holds exactly `size`, and there
      are no pages for an empty list. */
  function Chunks<T>(s: seq<T>, size: nat): (r: seq<seq<T>>)
    requires size > 0
    ensures |r| == 0 <==> |s| == 0
    ensures forall k :: 0 <= k < |r| ==> 0 < |r[k]| <= size
    ensures forall k :: 0 <= k < |r| - 1 ==> |r[k]| == size
    decreases |s|
  {
    if |s| == 0 then []
    else
      var end := Min(size, |s|);
      [s[..end]] + Chunks(s[end..], size)
  }

  /** The items of a list of pages, in order. */
  function Flatten<T>(pages: seq<seq<T>>): seq<T>
    decreases |pages|
  {
    if pages == [] then [] else pages[0] + Flatten(pages[1..])
  }

  /** The slicing loop, pushing one page per step. */
  method SplitIntoChunks<T>(s: seq<T>, size: nat) returns (chunks: seq<seq<T>>)
    requires size > 0
    ensures chunks == Chunks(s, size)
  {
    chunks := [];
    var i := 0;
    while i < |s|
      invariant Chunks(s, size) == chunks + Chunks(s[Min(i, |s|)..], size)
    {
      ChunkLoopStep(s, size, i, chunks);
      chunks := chunks + [s[i..Min(i + size, |s|)]];
      i := i + size;
    }
    assert s[Min(i, |s|)..] == [];
  }

  /** One step of the slicing loop keeps its invariant. */
  lemma ChunkLoopStep<T>(s: seq<T>, size: nat, i: nat, chunks: seq<seq<T>>)
    requires size > 0 && i < |s|
    requires Chunks(s, size) == chunks + Chunks(s[i..], size)
    ensures Chunks(s, size) == (chunks + [s[i..Min(i + size, |s|)]]) + Chunks(s[Min(i + size, |s|)..], size)
  {
    ChunksFrom(s, size, i);
  }

  /** The pages from position `i` on: the slice up to `i + size`, then the
      pages after it. */
  lemma ChunksFrom<T>(s: seq<T>, size: nat, i: nat)
    requires size > 0 && i < |s|
    ensures var end := Min(i + size, |s|);
            Chunks(s[i..], size) == [s[i..end]] + Chunks(s[end..], size)
  {
    var end := Min(i + size, |s|);
    assert s[i..][..Min(size, |s| - i)] == s[i..end];
    assert s[i..][Min(size, |s| - i)..] == s[end..];
  }

  /** Putting the pages back together gives the list: no item is dropped,
      duplicated or moved. */
  lemma {:induction false} FlattenChunks<T>(s: seq<T>, size: nat)
    requires size > 0
    ensures Flatten(Chunks(s, size)) == s
    decreases |s|
  {
    if |s| > 0 {
      var end := Min(size, |s|);
      var r := Chunks(s, size);
      assert r[1..] == Chunks(s[end..], size);
      FlattenChunks(s[end..], size);
      assert s[..end] + s[end..] == s;
    }
  }

  /** There are `ceil(|s| / size)` pages: the least `n` with
      `|s| <= n * size`. */
  lemma ChunkCount<T>(s: seq<T>, size: nat)
    requires size > 0
    ensures var n := |Chunks(s, size)|;
            |s| <= n * size && (n == 0 || (n - 1) * size < |s|)
  {
    var n := |Chunks(s, size)|;
    CountByOffset(s, size);
    OffsetIsProduct(n, size);
    if n > 0 {
      OffsetIsProduct(n - 1, size);
    }
  }

  /** `k * size`, built up one page at a time, so that inductions over pages
      need no multiplication. */
  function Offset(k: nat, size: nat): nat {
    if k == 0 then 0 else Offset(k - 1, size) + size
  }

  lemma {:induction false} OffsetIsProduct(k: nat, size: nat)
    ensures Offset(k, size) == k * size
  {
    if k > 0 {
      OffsetIsProduct(k - 1, size);
    }
  }

  /** `ChunkCount` with `Offset` in place of the product. */
  lemma {:induction false} CountByOffset<T>(s: seq<T>, size: nat)
    requires size > 0
    ensures var n := |Chunks(s, size)|;
            |s| <= Offset(n, size) && (n == 0 || Offset(n - 1, size) < |s|)
    decreases |s|
  {
    if |s| > size {
      ChunksUnfold(s, size);
      CountByOffset(s[size..], size);
    }
  }

  /** Page `k` is the slice `s[k * size .. min((k + 1) * size, |s|)]`. */
  lemma ChunkAt<T>(s: seq<T>, size: nat, k: nat)
    requires size > 0
    requires k < |Chunks(s, size)|
    ensures k * size < |s|
    ensures Chunks(s, size)[k] == s[k * size..Min((k + 1) * size, |s|)]
  {
    OffsetIsProduct(k, size);
    OffsetIsProduct(k + 1, size);
    PageAt(s, size, k);
  }

  /** `ChunkAt` with `Offset` in place of the product. */
  lemma {:induction false} PageAt<T>(s: seq<T>, size: nat, k: nat)
    requires size > 0
    requires k < |Chunks(s, size)|
    ensures Offset(k, size) < |s|
    ensures Chunks(s, size)[k] == s[Offset(k, size)..Min(Offset(k, size) + size, |s|)]
    decreases k
  {
    if k > 0 {
      assert |s| > size by {
        if |s| <= size {
          ChunksShort(s, size);
        }
      }
      var rest := s[size..];
      ChunksUnfold(s, size);
      PageAt(rest, size, k - 1);
      var lo := Offset(k - 1, size);
      SliceOfSlice(s, size, lo, Min(lo + size, |rest|));
    }
  }

  /** A non-empty list of at most `size` items is a single page. */
  lemma ChunksShort<T>(s: seq<T>, size: nat)
    requires 0 < |s| <= size
    ensures Chunks(s, size) == [s]
  {
    assert s[..|s|] == s;
  }

  /** A list of at least `size` items starts with a full page. */
  lemma ChunksUnfold<T>(s: seq<T>, size: nat)
    requires 0 < size <= |s|
    ensures Chunks(s, size) == [s[..size]] + Chunks(s[size..], size)
  {
  }

  /** A slice of a suffix is a slice of the whole. */
  lemma SliceOfSlice<T>(s: seq<T>, a: nat, x: nat, y: nat)
    requires a <= |s| && x <= y <= |s| - a
    ensures s[a..][x..y] == s[a + x..a + y]
  {
  }

  /** Item `p` of page `k` is item `k * size + p` of the list. */
  lemma ChunkItem<T>(s: seq<T>, size: nat, k: nat, p: nat)
    requires size > 0
    requires k < |Chunks(s, size)| && p < |Chunks(s, size)[k]|
    ensures k * size + p < |s| && Chunks(s, size)[k][p] == s[k * size + p]
  {
    PageAt(s, size, k);
    OffsetIsProduct(k, size);
    var lo := Offset(k, size);
    var page := Chunks(s, size)[k];
    assert page == s[lo..Min(lo + size, |s|)];
    assert page[p] == s[lo + p];
  }
}
