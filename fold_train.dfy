/** The minibatch slicing of the position-evaluation trainer
    (`iter_data` in `ml/poseval/fold_train.py`), on its path without
    shuffling: the data are cut into consecutive batches of `size`
    points and the incomplete batch at the end is dropped. */
module FoldTrain {
  import opened Wrappers

  datatype BatchError = ZeroBatchSize   // `n // size` raises ZeroDivisionError

  /** `n_end`: the points that fill whole batches. */
  function BatchedEnd(n: nat, size: nat): (e: nat)
    requires size > 0
  {
    (n / size) * size
  }

  lemma MulMono(a: nat, b: nat, c: nat)
    requires a <= b
    ensures a * c <= b * c
  {
  }

  lemma MulLess(a: nat, b: nat, c: nat)
    requires a * c < b * c
    ensures a < b
  {
    if a >= b {
      MulMono(b, a, c);
    }
  }

  /** `n_end` is the largest multiple of `size` that does not exceed `n`,
      and what it leaves over is less than one batch. */
  lemma BatchedEndSpec(n: nat, size: nat)
    requires size > 0
    ensures BatchedEnd(n, size) <= n < BatchedEnd(n, size) + size
    ensures forall k: nat :: k * size <= n ==> k * size <= BatchedEnd(n, size)
  {
    var q := n / size;
    assert n == q * size + n % size;
    forall k: nat | k * size <= n
      ensures k * size <= BatchedEnd(n, size)
    {
      assert (q + 1) * size == q * size + size;
      MulLess(k, q + 1, size);
      MulMono(k, q, size);
    }
  }

  /** The batches `data[start:start+size]` for the starts `start`,
      `start + size`, ... below `end`. */
  function Slices<T>(data: seq<T>, size: nat, start: nat, end: nat): seq<seq<T>>
    requires size > 0 && end <= |data|
    decreases end - start
  {
    if start >= end then []
    else [data[start..if start + size <= |data| then start + size else |data|]] + Slices(data, size, start + size, end)
  }

  /** `iter_data(data, size)` without shuffling, collected into a list. A
      negative `size` gives `range(0, n_end, size)` with `n_end >= 0`,
      which is empty. */
  function IterData<T>(data: seq<T>, size: int): Result<seq<seq<T>>, BatchError> {
    if size == 0 then Err(ZeroBatchSize)
    else if size < 0 then Ok([])
    else Ok(Slices(data, size, 0, BatchedEnd(|data|, size)))
  }

  /** From `start`, `k` batches are `k` full batches that together are
      the data from `start` to `end == start + k * size`. */
  lemma SlicesSpec<T>(data: seq<T>, size: nat, start: nat, end: nat, k: nat)
    requires size > 0 && end == start + k * size && end <= |data|
    ensures |Slices(data, size, start, end)| == k
    ensures forall b :: b in Slices(data, size, start, end) ==> |b| == size
    ensures Flatten(Slices(data, size, start, end)) == data[start..end]
  {
    SpanMul(k, size);
    SlicesLen(data, size, start, end, k);
    SlicesFlat(data, size, start, end, k);
  }

  /** `k` strides of `size`, counted one stride at a time. */
  function Span(k: nat, size: nat): nat {
    if k == 0 then 0 else size + Span(k - 1, size)
  }

  lemma {:induction false} SpanMul(k: nat, size: nat)
    ensures Span(k, size) == k * size
  {
    if k > 0 {
      SpanMul(k - 1, size);
      assert k * size == size + (k - 1) * size;
    }
  }

  lemma {:induction false} SlicesLen<T>(data: seq<T>, size: nat, start: nat, end: nat, k: nat)
    requires size > 0 && end == start + Span(k, size) && end <= |data|
    ensures |Slices(data, size, start, end)| == k
    ensures forall b :: b in Slices(data, size, start, end) ==> |b| == size
    decreases k
  {
    if k > 0 {
      SlicesLen(data, size, start + size, end, k - 1);
      SlicesCons(data, size, start, end);
    }
  }

  lemma {:induction false} SlicesFlat<T>(data: seq<T>, size: nat, start: nat, end: nat, k: nat)
    requires size > 0 && end == start + Span(k, size) && end <= |data|
    ensures Flatten(Slices(data, size, start, end)) == data[start..end]
    decreases k
  {
    if k > 0 {
      var mid := start + size;
      SlicesFlat(data, size, mid, end, k - 1);
      SlicesCons(data, size, start, end);
      FlattenCons(data[start..mid], Slices(data, size, mid, end));
      assert data[start..end] == data[start..mid] + data[mid..end];
    }
  }

  /** A batch that fits is the first of the slices. */
  lemma SlicesCons<T>(data: seq<T>, size: nat, start: nat, end: nat)
    requires size > 0 && start < end <= |data| && start + size <= |data|
    ensures Slices(data, size, start, end) == [data[start..start + size]] + Slices(data, size, start + size, end)
  {
  }

  lemma FlattenCons<T>(b: seq<T>, bs: seq<seq<T>>)
    ensures Flatten([b] + bs) == b + Flatten(bs)
  {
    assert ([b] + bs)[1..] == bs;
  }

  function Flatten<T>(bs: seq<seq<T>>): seq<T> {
    if bs == [] then [] else bs[0] + Flatten(bs[1..])
  }

  /** Without shuffling, every batch has exactly `size` points, there are
      `len(data) // size` of them, and they concatenate to the data up to
      `n_end`: only the incomplete tail is dropped. */
  lemma IterDataSpec<T>(data: seq<T>, size: int)
    ensures IterData(data, size).Err? <==> size == 0
    ensures size < 0 ==> IterData(data, size) == Ok([])
    ensures size > 0 ==>
      var bs := IterData(data, size).value;
      |bs| == |data| / size &&
      (forall b :: b in bs ==> |b| == size) &&
      Flatten(bs) == data[..BatchedEnd(|data|, size)]
  {
    if size > 0 {
      SlicesSpec(data, size, 0, BatchedEnd(|data|, size), |data| / size);
    }
  }
}
