/**
 * The fixed-size chunker of `parse_and_chunk` (utils.py): the extracted text is cut into
 * consecutive, non-overlapping slices of `size` characters, the last one possibly shorter.
 * The source writes it as a comprehension over `range(0, len(text), size)`; `SlicesFrom`
 * follows that range one step at a time.
 */
module Chunker {

  /** The chunk size used by the upload route (the default of `parse_and_chunk`). */
  const DEFAULT_CHUNK_SIZE: nat := 500

  function Min(a: int, b: int): int {
    if a <= b then a else b
  }

  /** The strings of `parts` written one after the other (`"".join(parts)`). */
  function Concat(parts: seq<string>): string {
    if |parts| == 0 then "" else parts[0] + Concat(parts[1..])
  }

  /**
   * `[text[i:i + size] for i in range(start, len(text), size)]`: Python's slice stops at the
   * end of the text, hence the `Min`.
   */
  function SlicesFrom(text: string, size: nat, start: nat): seq<string>
    requires size > 0
    decreases |text| - start
  {
    if start >= |text| then []
    else [text[start..Min(start + size, |text|)]] + SlicesFrom(text, size, start + size)
  }

  /** Every slice is non-empty and at most `size` long. */
  lemma {:induction false} SlicesFromBounds(text: string, size: nat, start: nat)
    requires size > 0
    ensures forall c :: c in SlicesFrom(text, size, start) ==> 0 < |c| <= size
    decreases |text| - start
  {
    if start < |text| {
      SlicesFromStep(text, size, start);
      SlicesFromBounds(text, size, start + size);
    }
  }

  /**
   * The chunks of `text`; `range` refuses a step of 0, so `size` must be positive. Joining the
   * chunks in order gives back exactly the text: no gap, no overlap.
   */
  function Chunks(text: string, size: nat): (r: seq<string>)
    requires size > 0
    ensures Concat(r) == text
    ensures forall c :: c in r ==> 0 < |c| <= size
  {
    SlicesFromConcat(text, size, 0);
    SlicesFromBounds(text, size, 0);
    SlicesFrom(text, size, 0)
  }

  lemma {:induction false} ConcatAppend(a: seq<string>, b: seq<string>)
    ensures Concat(a + b) == Concat(a) + Concat(b)
  {
    if |a| > 0 {
      assert (a + b)[1..] == a[1..] + b;
      ConcatAppend(a[1..], b);
    } else {
      assert a + b == b;
    }
  }

  lemma ConcatCons(part: string, rest: seq<string>)
    ensures Concat([part] + rest) == part + Concat(rest)
  {
    assert ([part] + rest)[1..] == rest;
  }

  lemma SlicesFromStep(text: string, size: nat, start: nat)
    requires size > 0 && start < |text|
    ensures SlicesFrom(text, size, start) ==
      [text[start..Min(start + size, |text|)]] + SlicesFrom(text, size, start + size)
  {
  }

  lemma SliceSplit(text: string, from: nat, to: nat)
    requires from <= to <= |text|
    ensures text[from..] == text[from..to] + text[to..]
  {
  }

  lemma {:induction false} SlicesFromConcat(text: string, size: nat, start: nat)
    requires size > 0 && start <= |text|
    ensures Concat(SlicesFrom(text, size, start)) == text[start..]
    decreases |text| - start
  {
    if start < |text| {
      var end := Min(start + size, |text|);
      var head, rest := text[start..end], SlicesFrom(text, size, start + size);
      SlicesFromStep(text, size, start);
      ConcatCons(head, rest);
      SliceSplit(text, start, end);
      if start + size <= |text| {
        SlicesFromConcat(text, size, start + size);
      } else {
        assert rest == [];
      }
    }
  }

  /** Slice `i` from `start` is slice `i - 1` from the next offset. */
  lemma NextOffset(start: nat, size: nat, i: nat)
    requires i > 0
    ensures start + size + (i - 1) * size == start + i * size
  {
    MulSucc(i - 1, size);
  }

  /**
   * Slice `i` from `start` begins at `offset == start + i * size` and runs to `offset + size`
   * or to the end of the text, whichever comes first.
   */
  lemma {:induction false} SlicesFromAt(text: string, size: nat, start: nat, i: nat, offset: nat)
    requires size > 0 && i < |SlicesFrom(text, size, start)| && offset == start + i * size
    ensures offset < |text|
    ensures SlicesFrom(text, size, start)[i] == text[offset..Min(offset + size, |text|)]
    decreases i
  {
    SlicesFromStep(text, size, start);
    if i > 0 {
      NextOffset(start, size, i);
      SlicesFromAt(text, size, start + size, i - 1, offset);
    }
  }

  /** Chunk `i` is `text[i*size .. min((i+1)*size, |text|)]`. */
  lemma ChunkAt(text: string, size: nat, i: nat)
    requires size > 0 && i < |Chunks(text, size)|
    ensures i * size < |text|
    ensures Chunks(text, size)[i] == text[i * size..Min((i + 1) * size, |text|)]
  {
    SlicesFromAt(text, size, 0, i, i * size);
    MulSucc(i, size);
  }

  lemma MulBelowOne(k: int, size: nat)
    requires size > 0 && k * size < size
    ensures k < 1
  {
  }

  lemma DivisionByBounds(x: nat, size: nat, q: nat)
    requires size > 0 && q * size <= x < q * size + size
    ensures x / size == q
  {
    var d, m := x / size, x % size;
    assert x == d * size + m && 0 <= m < size;
    assert (q - d) * size == q * size - d * size;
    assert (d - q) * size == d * size - q * size;
    MulBelowOne(q - d, size);
    MulBelowOne(d - q, size);
  }

  lemma MulSucc(n: int, size: int)
    ensures (n + 1) * size == n * size + size
  {
  }

  lemma {:induction false} SlicesFromCount(text: string, size: nat, start: nat)
    requires size > 0 && start <= |text|
    ensures |SlicesFrom(text, size, start)| * size >= |text| - start
    ensures |SlicesFrom(text, size, start)| == 0 || (|SlicesFrom(text, size, start)| - 1) * size < |text| - start
    decreases |text| - start
  {
    var n := |SlicesFrom(text, size, start)|;
    if start < |text| {
      var rest := SlicesFrom(text, size, start + size);
      assert n == |rest| + 1;
      MulSucc(|rest|, size);
      assert (n - 1) * size == |rest| * size;
      if start + size <= |text| {
        SlicesFromCount(text, size, start + size);
      } else {
        assert rest == [];
        assert |rest| * size == 0;
      }
    } else {
      assert n * size == 0;
    }
  }

  /**
   * There are `ceil(|text| / size)` chunks: the least `n` with `n * size >= |text|`.
   * In particular the empty text has no chunk.
   */
  lemma ChunkCount(text: string, size: nat)
    requires size > 0
    ensures |Chunks(text, size)| == (|text| + size - 1) / size
    ensures |Chunks(text, size)| * size >= |text|
    ensures |Chunks(text, size)| > 0 ==> (|Chunks(text, size)| - 1) * size < |text|
  {
    SlicesFromCount(text, size, 0);
    var n := |Chunks(text, size)|;
    if n == 0 {
      DivisionByBounds(|text| + size - 1, size, 0);
    } else {
      DivisionByBounds(|text| + size - 1, size, n);
    }
  }

  /** No chunks exactly when there is no text. */
  lemma ChunksEmptyIff(text: string, size: nat)
    requires size > 0
    ensures Chunks(text, size) == [] <==> text == ""
  {
  }

  /** Every chunk but the last is `size` long; the last is between 1 and `size` long. */
  lemma ChunkLengths(text: string, size: nat)
    requires size > 0
    ensures var r := Chunks(text, size);
      forall i :: 0 <= i < |r| - 1 ==> |r[i]| == size
    ensures var r := Chunks(text, size);
      |r| > 0 ==> 0 < |r[|r| - 1]| <= size
  {
    var r := Chunks(text, size);
    forall i | 0 <= i < |r| - 1
      ensures |r[i]| == size
    {
      ChunkAt(text, size, i);
      ChunkAt(text, size, i + 1);
      assert (i + 1) * size == i * size + size;
    }
    if |r| > 0 {
      assert r[|r| - 1] in r;
    }
  }
}
