/** Greedy packing of whole sentences into chunks of at most `chunkSize`
    characters, as the outer `while` loop of `_split_text_into_chunks` does it. A
    sentence that alone exceeds the bound is still placed, alone, in a chunk
    of its own. */
module Packing {
  import opened Text

  /** The run fits a chunk of `size` characters once joined by single spaces. */
  predicate Fits(run: seq<string>, size: int) {
    |Join(run)| <= size
  }

  /** How far the inner loop gets when it starts with `n` sentences of `s`
      already in the chunk: it adds sentences while the next one still fits. */
  function Greedy(s: seq<string>, size: int, n: nat): (m: nat)
    requires n <= |s|
    ensures n <= m <= |s|
    ensures m > n ==> Fits(s[..m], size)
    ensures m < |s| ==> !Fits(s[..m + 1], size)
    decreases |s| - n
  {
    if n < |s| && Fits(s[..n + 1], size) then Greedy(s, size, n + 1) else n
  }

  /** Number of sentences in the next chunk: the greedy count, or one sentence
      forced in when not even the first one fits. */
  function RunLength(s: seq<string>, size: int): (n: nat)
    requires |s| > 0
    ensures 1 <= n <= |s|
    ensures Fits(s[..n], size) || (n == 1 && |s[0]| > size)
    ensures n < |s| ==> !Fits(s[..n + 1], size)
  {
    var g := Greedy(s, size, 0);
    if g == 0 then
      assert s[..1] == [s[0]];
      1
    else g
  }

  /** The runs of sentences the packing loop turns into chunks, in order. */
  function PackRuns(s: seq<string>, size: int): seq<seq<string>>
    decreases |s|
  {
    if |s| == 0 then []
    else
      var n := RunLength(s, size);
      [s[..n]] + PackRuns(s[n..], size)
  }

  function Flatten(runs: seq<seq<string>>): seq<string> {
    if |runs| == 0 then [] else runs[0] + Flatten(runs[1..])
  }

  /** `[' '.join(run) for run in runs]` */
  function JoinEach(runs: seq<seq<string>>): seq<string> {
    if |runs| == 0 then [] else [Join(runs[0])] + JoinEach(runs[1..])
  }

  lemma {:induction false} JoinEachIndex(runs: seq<seq<string>>)
    ensures |JoinEach(runs)| == |runs|
    ensures forall k :: 0 <= k < |runs| ==> JoinEach(runs)[k] == Join(runs[k])
  {
    if |runs| > 0 {
      JoinEachIndex(runs[1..]);
    }
  }

  /** The inner loop's test: with `chunkLength` equal to the joined length of
      the first `n` sentences, adding sentence `n` keeps the chunk within `size`
      exactly when the longer run fits. */
  lemma FitsStep(t: seq<string>, n: nat, size: int)
    requires n < |t|
    ensures Fits(t[..n + 1], size) <==> |Join(t[..n])| + |t[n]| + (if n > 0 then 1 else 0) <= size
  {
    assert t[..n + 1] == t[..n] + [t[n]];
    JoinAppend(t[..n], t[n]);
  }

  lemma PackRunsStep(prefix: seq<string>, s: seq<string>, size: int, n: nat)
    requires |s| > 0 && n == RunLength(s, size)
    ensures prefix + JoinEach(PackRuns(s, size)) == (prefix + [Join(s[..n])]) + JoinEach(PackRuns(s[n..], size))
  {
    var runs := PackRuns(s, size);
    assert runs[1..] == PackRuns(s[n..], size);
  }

  /** The inner `while` loop of `_split_text_into_chunks`: starting at sentence
      `start`, add whole sentences while `chunkLength`, the length of the
      space-joined run so far, leaves room for the next one. */
  method GreedyLoop(sentences: seq<string>, start: nat, chunkSize: int) returns (run: seq<string>, next: nat)
    requires start <= |sentences|
    ensures start <= next <= |sentences|
    ensures next - start == Greedy(sentences[start..], chunkSize, 0)
    ensures run == sentences[start..][..next - start]
  {
    ghost var t := sentences[start..];
    run := [];
    var chunkLength := 0;
    next := start;
    while next < |sentences|
      invariant start <= next <= |sentences|
      invariant run == t[..next - start]
      invariant chunkLength == |Join(run)|
      invariant Greedy(t, chunkSize, next - start) == Greedy(t, chunkSize, 0)
      decreases |sentences| - next
    {
      var sentence := sentences[next];
      FitsStep(t, next - start, chunkSize);
      JoinAppend(run, sentence);
      if chunkLength + |sentence| + (if |run| > 0 then 1 else 0) <= chunkSize {
        run := run + [sentence];
        chunkLength := chunkLength + |sentence| + (if |run| > 1 then 1 else 0);
        next := next + 1;
        assert run == t[..next - start];
      } else {
        break;
      }
    }
  }

  /** One chunk's sentences, one pass of the outer `while` loop: the greedy run, or the next sentence
      alone when not even it fits. */
  method FillChunk(sentences: seq<string>, start: nat, chunkSize: int) returns (run: seq<string>, next: nat)
    requires start < |sentences|
    ensures next == start + RunLength(sentences[start..], chunkSize)
    ensures next <= |sentences| && run == sentences[start..next]
  {
    run, next := GreedyLoop(sentences, start, chunkSize);
    if |run| == 0 {
      run := [sentences[next]];
      next := next + 1;
    }
    assert sentences[start..][..next - start] == sentences[start..next];
  }

  /** The packing loop as written: an outer loop that starts a chunk and lets
      the inner loop fill it. */
  method PackSentences(sentences: seq<string>, chunkSize: int) returns (chunks: seq<string>)
    ensures chunks == JoinEach(PackRuns(sentences, chunkSize))
  {
    chunks := [];
    var i := 0;
    while i < |sentences|
      invariant 0 <= i <= |sentences|
      invariant chunks + JoinEach(PackRuns(sentences[i..], chunkSize)) == JoinEach(PackRuns(sentences, chunkSize))
      decreases |sentences| - i
    {
      var run, next := FillChunk(sentences, i, chunkSize);
      ghost var t := sentences[i..];
      assert run == t[..next - i] && t[next - i..] == sentences[next..];
      PackRunsStep(chunks, t, chunkSize, next - i);
      chunks := chunks + [Join(run)];
      i := next;
    }
  }

  // ---------------------------------------------------------------------------
  // Properties of the packing.

  /** Packing is lossless and order-preserving: every run is non-empty and the
      runs laid end to end give back the sentence list, so there are never more
      chunks than sentences. */
  lemma {:induction false} PackRunsPartition(s: seq<string>, size: int)
    ensures Flatten(PackRuns(s, size)) == s
    ensures forall k :: 0 <= k < |PackRuns(s, size)| ==> |PackRuns(s, size)[k]| > 0
    ensures |PackRuns(s, size)| <= |s|
    decreases |s|
  {
    if |s| > 0 {
      var n := RunLength(s, size);
      var runs := PackRuns(s, size);
      PackRunsPartition(s[n..], size);
      assert runs[1..] == PackRuns(s[n..], size);
      assert s[..n] + s[n..] == s;
    }
  }

  /** Every chunk fits `size`, except a chunk made of one sentence that alone
      exceeds it. */
  lemma {:induction false} PackRunsBound(s: seq<string>, size: int)
    ensures forall k :: 0 <= k < |PackRuns(s, size)| ==>
      Fits(PackRuns(s, size)[k], size) || (|PackRuns(s, size)[k]| == 1 && |PackRuns(s, size)[k][0]| > size)
    decreases |s|
  {
    if |s| > 0 {
      var n := RunLength(s, size);
      PackRunsBound(s[n..], size);
      var runs := PackRuns(s, size);
      forall k | 0 <= k < |runs|
        ensures Fits(runs[k], size) || (|runs[k]| == 1 && |runs[k][0]| > size)
      {
        if k > 0 {
          assert runs[k] == PackRuns(s[n..], size)[k - 1];
        }
      }
    }
  }

  /** Packing is greedy: a chunk is closed only when the next sentence would
      push it past `size`. */
  lemma {:induction false} PackRunsMaximal(s: seq<string>, size: int)
    ensures forall k :: 0 < k < |PackRuns(s, size)| ==>
      |PackRuns(s, size)[k]| > 0 && !Fits(PackRuns(s, size)[k - 1] + [PackRuns(s, size)[k][0]], size)
    decreases |s|
  {
    if |s| > 0 {
      var n := RunLength(s, size);
      var rest := PackRuns(s[n..], size);
      PackRunsMaximal(s[n..], size);
      PackRunsPartition(s[n..], size);
      var runs := PackRuns(s, size);
      forall k | 0 < k < |runs|
        ensures |runs[k]| > 0 && !Fits(runs[k - 1] + [runs[k][0]], size)
      {
        if k == 1 {
          assert rest[0] == s[n..][..RunLength(s[n..], size)];
          assert runs[0] + [runs[1][0]] == s[..n + 1];
        } else {
          assert runs[k - 1] == rest[k - 2] && runs[k] == rest[k - 1];
        }
      }
    }
  }
}
