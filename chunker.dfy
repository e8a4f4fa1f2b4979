/**
  * `split_file` (autogpt/commands/file_operations.py:71-95): a window that
  * starts at offset 0, is `maxLength + overlap` characters wide, is clamped
  * to the content length, and moves forward by `maxLength - overlap`.
  *
  * The reference definition `Chunks` names chunk `i` directly; the method
  * `SplitFile` runs the source's `while` loop and is proved equal to it.
  */
module Chunker {

  /**
    * Inputs for which the loop stops and every slice bound is a plain
    * non-negative index: the stride is positive and the window is not
    * negative. Empty content stops the loop before any arithmetic happens.
    */
  predicate Splittable(len: nat, maxLength: int, overlap: int)
  {
    len == 0 || (overlap < maxLength && 0 <= maxLength + overlap)
  }

  /** The number of windows: `ceil(len / stride)`, none for empty content. */
  function ChunkCount(len: nat, maxLength: int, overlap: int): nat
    requires Splittable(len, maxLength, overlap)
  {
    if len == 0 then 0 else (len + (maxLength - overlap) - 1) / (maxLength - overlap)
  }

  /** Where window `i` starts. */
  function ChunkStart(i: nat, maxLength: int, overlap: int): int
  {
    i * (maxLength - overlap)
  }

  /** Where window `i` ends: `start + maxLength + overlap` unless that reaches the end of the content. */
  function ChunkEnd(len: nat, i: nat, maxLength: int, overlap: int): int
  {
    var s := ChunkStart(i, maxLength, overlap);
    if s + maxLength + overlap < len then s + maxLength + overlap else len
  }

  /** A window starts inside the content exactly when its index is below the count. */
  lemma CountBound(len: nat, maxLength: int, overlap: int, i: nat)
    requires 0 < len && Splittable(len, maxLength, overlap)
    ensures i < ChunkCount(len, maxLength, overlap) <==> ChunkStart(i, maxLength, overlap) < len
  {
    var d := maxLength - overlap;
    var q := (len + d - 1) / d;
    var r := (len + d - 1) % d;
    assert q == ChunkCount(len, maxLength, overlap);
    assert i * d == ChunkStart(i, maxLength, overlap);
    assert len + d - 1 == q * d + r && 0 <= r < d;
    if i < q {
      MulMono(i, q - 1, d);
      assert (q - 1) * d == q * d - d;
      assert i * d < len;
    } else {
      MulMono(q, i, d);
      assert i * d >= len;
    }
  }

  /** Each window starts one stride after the one before. */
  lemma StartStep(i: nat, maxLength: int, overlap: int)
    ensures ChunkStart(i + 1, maxLength, overlap) == ChunkStart(i, maxLength, overlap) + (maxLength - overlap)
  {
  }

  lemma MulMono(a: nat, b: nat, d: int)
    requires a <= b && 0 < d
    ensures a * d <= b * d
  {
  }

  /** Window `i` as a slice of `content`. */
  function ChunkAt(content: string, maxLength: int, overlap: int, i: nat): string
    requires Splittable(|content|, maxLength, overlap)
    requires i < ChunkCount(|content|, maxLength, overlap)
  {
    CountBound(|content|, maxLength, overlap, i);
    content[ChunkStart(i, maxLength, overlap)..ChunkEnd(|content|, i, maxLength, overlap)]
  }

  /** The whole sequence of windows, in order. */
  function Chunks(content: string, maxLength: int, overlap: int): seq<string>
    requires Splittable(|content|, maxLength, overlap)
  {
    seq(ChunkCount(|content|, maxLength, overlap), i requires 0 <= i < ChunkCount(|content|, maxLength, overlap) =>
      ChunkAt(content, maxLength, overlap, i))
  }

  /**
    * The generator of the source, collected into a list: the loop advances
    * `start` by the stride and emits either the full window or the rest of
    * the content.
    */
  method SplitFile(content: string, maxLength: int := 4000, overlap: int := 0) returns (chunks: seq<string>)
    requires Splittable(|content|, maxLength, overlap)
    ensures chunks == Chunks(content, maxLength, overlap)
  {
    chunks := [];
    var start := 0;
    var contentLength := |content|;
    while start < contentLength
      invariant 0 <= start
      invariant start == ChunkStart(|chunks|, maxLength, overlap)
      invariant |chunks| <= ChunkCount(contentLength, maxLength, overlap)
      invariant forall i :: 0 <= i < |chunks| ==> chunks[i] == ChunkAt(content, maxLength, overlap, i)
      decreases contentLength - start
    {
      CountBound(contentLength, maxLength, overlap, |chunks|);
      var end := start + maxLength;
      var chunk;
      if end + overlap < contentLength {
        chunk := content[start..end + overlap];
      } else {
        chunk := content[start..contentLength];
      }
      chunks := chunks + [chunk];
      start := start + (maxLength - overlap);
      assert start == ChunkStart(|chunks|, maxLength, overlap);
    }
    if contentLength > 0 {
      CountBound(contentLength, maxLength, overlap, |chunks|);
    }
  }

  /**
    * There are `ceil(len / (maxLength - overlap))` chunks: none exactly for
    * empty content, otherwise the least count whose strides pass the end.
    */
  lemma ChunkCountIsCeiling(content: string, maxLength: int, overlap: int)
    requires Splittable(|content|, maxLength, overlap)
    ensures var n := |Chunks(content, maxLength, overlap)|;
      && (n == 0 <==> |content| == 0)
      && (|content| > 0 ==> (n - 1) * (maxLength - overlap) < |content| <= n * (maxLength - overlap))
  {
    if |content| > 0 {
      var n := ChunkCount(|content|, maxLength, overlap);
      CountBound(|content|, maxLength, overlap, 0);
      CountBound(|content|, maxLength, overlap, n - 1);
      CountBound(|content|, maxLength, overlap, n);
    }
  }

  /**
    * Every chunk is the slice of the content that starts at its window's
    * offset, at most `maxLength + overlap` long, and non-empty whenever the
    * window has a positive width.
    */
  lemma ChunkShape(content: string, maxLength: int, overlap: int, i: nat)
    requires Splittable(|content|, maxLength, overlap)
    requires i < |Chunks(content, maxLength, overlap)|
    ensures var c := Chunks(content, maxLength, overlap)[i];
      var s := i * (maxLength - overlap);
      && 0 <= s < |content|
      && |c| <= maxLength + overlap
      && (0 < maxLength + overlap ==> 0 < |c|)
      && s + |c| <= |content|
      && c == content[s..s + |c|]
      && (s + maxLength + overlap < |content| ==> |c| == maxLength + overlap)
  {
    CountBound(|content|, maxLength, overlap, i);
  }

  /** With a non-negative overlap the last chunk reaches the end of the content. */
  lemma LastChunkReachesEnd(content: string, maxLength: int, overlap: int)
    requires Splittable(|content|, maxLength, overlap) && |content| > 0
    requires 0 <= overlap
    ensures var cs := Chunks(content, maxLength, overlap);
      |cs| > 0 && (|cs| - 1) * (maxLength - overlap) + |cs[|cs| - 1]| == |content|
  {
    var n := ChunkCount(|content|, maxLength, overlap);
    CountBound(|content|, maxLength, overlap, 0);
    CountBound(|content|, maxLength, overlap, n - 1);
    CountBound(|content|, maxLength, overlap, n);
    assert n * (maxLength - overlap) == (n - 1) * (maxLength - overlap) + (maxLength - overlap);
  }

  /**
    * With a non-negative overlap, every position of the content lies in some
    * chunk (the windows leave no gap).
    */
  lemma ChunksCover(content: string, maxLength: int, overlap: int, p: nat)
    requires Splittable(|content|, maxLength, overlap)
    requires 0 <= overlap && p < |content|
    ensures exists i ::
      (0 <= i < |Chunks(content, maxLength, overlap)|
       && ChunkStart(i, maxLength, overlap) <= p < ChunkStart(i, maxLength, overlap) + |Chunks(content, maxLength, overlap)[i]|)
  {
    var d := maxLength - overlap;
    var i := p / d;
    assert i * d + p % d == p;
    assert i * d <= p < i * d + d;
    CountBound(|content|, maxLength, overlap, i);
    assert ChunkStart(i, maxLength, overlap) <= p < ChunkStart(i, maxLength, overlap) + |Chunks(content, maxLength, overlap)[i]|;
  }

  /**
    * Neighbouring chunks overlap: what chunk `i` holds past the stride is the
    * start of chunk `i + 1`; a full chunk shares `2 * overlap` characters
    * with the next one.
    */
  lemma NeighboursOverlap(content: string, maxLength: int, overlap: int, i: nat)
    requires Splittable(|content|, maxLength, overlap) && 0 <= overlap
    requires i + 1 < |Chunks(content, maxLength, overlap)|
    ensures var cs := Chunks(content, maxLength, overlap);
      && maxLength - overlap <= |cs[i]|
      && cs[i][maxLength - overlap..] <= cs[i + 1]
      && (|cs[i]| == maxLength + overlap ==> |cs[i][maxLength - overlap..]| == 2 * overlap)
  {
    var cs := Chunks(content, maxLength, overlap);
    var s, e := ChunkSlice(content, maxLength, overlap, i);
    var t, f := ChunkSlice(content, maxLength, overlap, i + 1);
    StartStep(i, maxLength, overlap);
    var d := maxLength - overlap;
    assert t == s + d && t <= e <= f;
    assert cs[i][d..] == content[t..e];
    assert cs[i + 1][..e - t] == content[t..e];
  }

  /** Chunk `i` is the slice `[s, e)` of the content, `e` clamped to its end. */
  lemma ChunkSlice(content: string, maxLength: int, overlap: int, i: nat) returns (s: int, e: int)
    requires Splittable(|content|, maxLength, overlap)
    requires i < |Chunks(content, maxLength, overlap)|
    ensures s == ChunkStart(i, maxLength, overlap) && e == ChunkEnd(|content|, i, maxLength, overlap)
    ensures 0 <= s < |content| && s <= e <= |content|
    ensures e == (if s + maxLength + overlap < |content| then s + maxLength + overlap else |content|)
    ensures Chunks(content, maxLength, overlap)[i] == content[s..e]
  {
    CountBound(|content|, maxLength, overlap, i);
    s := ChunkStart(i, maxLength, overlap);
    e := ChunkEnd(|content|, i, maxLength, overlap);
  }

  /** Flattens a sequence of chunks back into one text. */
  function Concat(cs: seq<string>): (r: string)
    ensures |cs| == 1 ==> r == cs[0]
  {
    if cs == [] then "" else cs[0] + Concat(cs[1..])
  }

  lemma ConcatSnoc(cs: seq<string>, c: string)
    ensures Concat(cs + [c]) == Concat(cs) + c
  {
    if cs != [] {
      assert (cs + [c])[1..] == cs[1..] + [c];
    }
  }

  /** Without overlap, how much of the content the first `k` chunks take up. */
  function Covered(len: nat, maxLength: int, k: nat): int
  {
    if k * maxLength < len then k * maxLength else len
  }

  /** Without overlap, the first `k` chunks are exactly the first `k * maxLength` characters (clamped). */
  lemma {:induction false} ConcatPrefix(content: string, maxLength: int, k: nat)
    requires Splittable(|content|, maxLength, 0)
    requires k <= |Chunks(content, maxLength, 0)|
    ensures 0 <= Covered(|content|, maxLength, k) <= |content|
    ensures Concat(Chunks(content, maxLength, 0)[..k]) == content[..Covered(|content|, maxLength, k)]
  {
    var cs := Chunks(content, maxLength, 0);
    if k == 0 {
      assert cs[..0] == [];
    } else {
      ConcatPrefix(content, maxLength, k - 1);
      PlainChunk(content, maxLength, k - 1);
      var s := Covered(|content|, maxLength, k - 1);
      var u := Covered(|content|, maxLength, k);
      TakeSnoc(cs, k);
      ConcatSnoc(cs[..k - 1], cs[k - 1]);
      SlicesJoin(content, s, u);
    }
  }

  lemma TakeSnoc<T>(xs: seq<T>, k: nat)
    requires 0 < k <= |xs|
    ensures xs[..k] == xs[..k - 1] + [xs[k - 1]]
  {
  }

  lemma SlicesJoin<T>(xs: seq<T>, s: int, u: int)
    requires 0 <= s <= u <= |xs|
    ensures xs[..s] + xs[s..u] == xs[..u]
  {
  }

  /** Without overlap, chunk `i` runs from `i * maxLength` to `(i + 1) * maxLength`, clamped. */
  lemma PlainChunk(content: string, maxLength: int, i: nat)
    requires Splittable(|content|, maxLength, 0)
    requires i < |Chunks(content, maxLength, 0)|
    ensures var s := Covered(|content|, maxLength, i);
      var u := Covered(|content|, maxLength, i + 1);
      && s == i * maxLength
      && 0 <= s <= u <= |content|
      && Chunks(content, maxLength, 0)[i] == content[s..u]
  {
    CountBound(|content|, maxLength, 0, i);
    assert (i + 1) * maxLength == i * maxLength + maxLength;
  }

  /** Without overlap, the chunks concatenate back to the content. */
  lemma ConcatRoundTrip(content: string, maxLength: int)
    requires Splittable(|content|, maxLength, 0)
    ensures Concat(Chunks(content, maxLength, 0)) == content
  {
    var cs := Chunks(content, maxLength, 0);
    ConcatPrefix(content, maxLength, |cs|);
    assert cs[..|cs|] == cs;
    if |content| > 0 {
      CountBound(|content|, maxLength, 0, |cs|);
      assert Covered(|content|, maxLength, |cs|) == |content|;
    }
  }

  /**
    * The default ingestion setting on a 4500-character text: two chunks,
    * `[0, 4200)` and `[3800, 4500)`, sharing `[3800, 4200)`.
    */
  lemma IngestDefaultsExample(content: string)
    requires |content| == 4500
    ensures Chunks(content, 4000, 200) == [content[0..4200], content[3800..4500]]
  {
    assert ChunkCount(4500, 4000, 200) == 2;
  }
}
