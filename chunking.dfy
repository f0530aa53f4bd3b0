/** `split_text_into_chunks` with its default window of 512 tokens and overlap
    of 100: window k covers the tokens from k * 412 up to 512 tokens further,
    clipped at the end. The tokenizer is external and enters as two functions. */
module Chunking {
  import opened Prelude

  const ChunkSize: nat := 512
  const Overlap: nat := 100
  /** The step of `range(0, len(tokens), chunk_size - overlap)`. */
  const Stride: nat := 412

  /** How many windows `n` tokens give: the least count whose windows' starts
      reach `n`, that is the ceiling of n / 412. */
  function WindowCount(n: nat): (c: nat)
    ensures c * Stride >= n
    ensures c > 0 ==> (c - 1) * Stride < n
    ensures c == 0 <==> n == 0
  {
    (n + Stride - 1) / Stride
  }

  /** `tokens[i:i + chunk_size]` for the k-th start `i = k * 412`. */
  function Window<T>(tokens: seq<T>, k: nat): seq<T>
    requires k * Stride < |tokens|
  {
    tokens[k * Stride .. Min(k * Stride + ChunkSize, |tokens|)]
  }

  /** `split_text_into_chunks(text)`: one detokenized window per start offset. */
  method SplitTextIntoChunks(text: string, tokenize: string -> seq<string>, detokenize: seq<string> -> string)
    returns (chunks: seq<string>)
    ensures |chunks| == WindowCount(|tokenize(text)|)
    ensures forall k :: 0 <= k < |chunks| ==>
              k * Stride < |tokenize(text)| && chunks[k] == detokenize(Window(tokenize(text), k))
  {
    var tokens := tokenize(text);
    chunks := [];
    var i := 0;
    while i < |tokens|
      invariant i == |chunks| * Stride
      invariant i < |tokens| + Stride
      invariant forall k :: 0 <= k < |chunks| ==>
                  k * Stride < |tokens| && chunks[k] == detokenize(Window(tokens, k))
    {
      chunks := chunks + [detokenize(tokens[i..Min(i + ChunkSize, |tokens|)])];
      i := i + Stride;
    }
  }

  /** Every window the count admits starts inside the tokens; it is non-empty,
      at most 512 tokens long, and exactly 512 long unless it reaches the end. */
  lemma WindowShape<T>(tokens: seq<T>, k: nat)
    requires k < WindowCount(|tokens|)
    ensures k * Stride < |tokens|
    ensures |Window(tokens, k)| == Min(ChunkSize, |tokens| - k * Stride)
    ensures 0 < |Window(tokens, k)| <= ChunkSize
  {
    var c := WindowCount(|tokens|);
    assert (c - 1) * Stride < |tokens|;
    assert k * Stride <= (c - 1) * Stride;
  }

  /** Every token lies in some window: token j is at position j % 412 of window j / 412. */
  lemma Coverage<T>(tokens: seq<T>, j: nat)
    requires j < |tokens|
    ensures j / Stride < WindowCount(|tokens|)
    ensures (j / Stride) * Stride < |tokens|
    ensures j % Stride < |Window(tokens, j / Stride)|
    ensures Window(tokens, j / Stride)[j % Stride] == tokens[j]
  {
    var k := j / Stride;
    assert k * Stride + j % Stride == j;
  }

  /** Consecutive windows overlap: the last tokens of window k past the stride
      are the first min(100, |window k+1|) tokens of window k + 1. */
  lemma ConsecutiveOverlap<T>(tokens: seq<T>, k: nat)
    requires k + 1 < WindowCount(|tokens|)
    ensures (k + 1) * Stride < |tokens|
    ensures Stride < |Window(tokens, k)|
    ensures Window(tokens, k)[Stride..] == Window(tokens, k + 1)[..Min(Overlap, |Window(tokens, k + 1)|)]
  {
    WindowShape(tokens, k + 1);
    WindowShape(tokens, k);
  }

  /** Up to 412 tokens give a single window holding all of them. */
  lemma ShortInputOneWindow<T>(tokens: seq<T>)
    requires 0 < |tokens| <= Stride
    ensures WindowCount(|tokens|) == 1
    ensures Window(tokens, 0) == tokens
  {
  }

  /** 413 to 512 tokens give two windows although the first already holds all
      of them: the second repeats their tail from offset 412. */
  lemma MidInputTwoWindows<T>(tokens: seq<T>)
    requires Stride < |tokens| <= ChunkSize
    ensures WindowCount(|tokens|) == 2
    ensures Window(tokens, 0) == tokens
    ensures Window(tokens, 1) == tokens[Stride..]
  {
  }
}
