/** Overlapping fixed-size text windows (`chunk_text`): window `k` starts at
    `k * (chunkSize - overlap)` and is `chunkSize` characters long, except the
    last, which is cut off at the end of the text. */
module Chunking {

  const DefaultChunkSize: int := 500
  const DefaultOverlap: int := 50

  /** The parameters modelled here: a positive window size and an overlap that
      is not negative and smaller than the window, so every step advances. A
      text no longer than `chunkSize` gives one window whatever the overlap. */
  predicate ValidParams(chunkSize: int, overlap: int)
  {
    0 <= overlap < chunkSize
  }

  function Min(a: int, b: int): int { if a <= b then a else b }

  /** Where window `k` starts: `start` after `k` advances of `chunkSize - overlap`. */
  function ChunkStart(k: nat, chunkSize: int, overlap: int): nat
    requires ValidParams(chunkSize, overlap)
  {
    if k == 0 then 0 else ChunkStart(k - 1, chunkSize, overlap) + (chunkSize - overlap)
  }

  lemma {:induction false} StartIsProduct(k: nat, chunkSize: int, overlap: int)
    requires ValidParams(chunkSize, overlap)
    ensures ChunkStart(k, chunkSize, overlap) == k * (chunkSize - overlap)
  {
    if k > 0 {
      StartIsProduct(k - 1, chunkSize, overlap);
      assert k * (chunkSize - overlap) == (k - 1) * (chunkSize - overlap) + (chunkSize - overlap);
    }
  }

  lemma {:induction false} StartMonotone(j: nat, k: nat, chunkSize: int, overlap: int)
    requires ValidParams(chunkSize, overlap) && j <= k
    ensures ChunkStart(j, chunkSize, overlap) <= ChunkStart(k, chunkSize, overlap)
  {
    if j < k {
      StartMonotone(j, k - 1, chunkSize, overlap);
    }
  }

  /** How many windows a text of length `n` is cut into: none for the empty
      text, otherwise the first `c` such that window `c - 1` reaches the end. */
  function ChunkCount(n: nat, chunkSize: int, overlap: int): (c: nat)
    requires ValidParams(chunkSize, overlap)
    ensures c == 0 <==> n == 0
    ensures forall k: nat :: k < c ==> ChunkStart(k, chunkSize, overlap) < n
    ensures forall k: nat :: k + 1 < c ==> ChunkStart(k, chunkSize, overlap) + chunkSize < n
    ensures c > 0 ==> ChunkStart(c - 1, chunkSize, overlap) + chunkSize >= n
  {
    var step := chunkSize - overlap;
    if n == 0 then 0
    else if n <= chunkSize then 1
    else
      var q := (n - chunkSize + step - 1) / step;
      var c := q + 1;
      StartIsProduct(c - 1, chunkSize, overlap);
      StartIsProduct(c - 2, chunkSize, overlap);
      assert LastReaches: q * step + chunkSize >= n;
      assert BeforeLast: q >= 1 ==> (q - 1) * step + chunkSize < n by {
        assert (q - 1) * step == q * step - step;
      }
      assert forall k: nat :: k + 1 < c ==> ChunkStart(k, chunkSize, overlap) + chunkSize < n by {
        forall k: nat | k + 1 < c
          ensures ChunkStart(k, chunkSize, overlap) + chunkSize < n
        {
          StartMonotone(k, c - 2, chunkSize, overlap);
        }
      }
      assert forall k: nat :: k < c ==> ChunkStart(k, chunkSize, overlap) < n by {
        forall k: nat | k < c
          ensures ChunkStart(k, chunkSize, overlap) < n
        {
          if k > 0 {
            StartMonotone(k - 1, c - 2, chunkSize, overlap);
          }
        }
      }
      c
  }

  /** Window `k` of `text`: `text[start:min(start + chunkSize, len(text))]`. */
  function Window(text: string, k: nat, chunkSize: int, overlap: int): string
    requires ValidParams(chunkSize, overlap)
    requires ChunkStart(k, chunkSize, overlap) <= |text|
  {
    text[ChunkStart(k, chunkSize, overlap)..Min(ChunkStart(k, chunkSize, overlap) + chunkSize, |text|)]
  }

  /** The specification of `chunk_text`, in closed form. */
  function Chunks(text: string, chunkSize: int, overlap: int): (chunks: seq<string>)
    requires ValidParams(chunkSize, overlap)
  {
    var c := ChunkCount(|text|, chunkSize, overlap);
    seq(c, k requires 0 <= k < c => Window(text, k, chunkSize, overlap))
  }

  /** `chunk_text(text, chunk_size, overlap)`: the loop that advances `start`
      by `chunkSize - overlap` and stops after the window that reaches the end. */
  method ChunkText(text: string, chunkSize: int, overlap: int) returns (chunks: seq<string>)
    requires ValidParams(chunkSize, overlap)
    ensures chunks == Chunks(text, chunkSize, overlap)
  {
    if text == [] {
      return [];
    }
    chunks := [];
    var start := 0;
    var textLen := |text|;
    while start < textLen
      invariant start == ChunkStart(|chunks|, chunkSize, overlap)
      invariant forall k :: 0 <= k < |chunks| ==> ChunkStart(k, chunkSize, overlap) + chunkSize < textLen
      invariant forall k :: 0 <= k < |chunks| ==> chunks[k] == Window(text, k, chunkSize, overlap)
      invariant |chunks| > 0 ==> start < textLen
      decreases textLen - start
    {
      var end := Min(start + chunkSize, textLen);
      chunks := chunks + [text[start..end]];
      if end == textLen {
        break;
      }
      start := start + (chunkSize - overlap);
    }
  }

  /** Every window is non-empty and at most `chunkSize` long; all but the last
      are exactly `chunkSize` long, and the last one ends at the end of the text. */
  lemma ChunkSizes(text: string, chunkSize: int, overlap: int)
    requires ValidParams(chunkSize, overlap)
    ensures var chunks := Chunks(text, chunkSize, overlap);
      && (text == [] <==> chunks == [])
      && (forall k :: 0 <= k < |chunks| ==> 0 < |chunks[k]| <= chunkSize)
      && (forall k :: 0 <= k < |chunks| - 1 ==> |chunks[k]| == chunkSize)
      && (chunks != [] ==>
            ChunkStart(|chunks| - 1, chunkSize, overlap) + |chunks[|chunks| - 1]| == |text|)
  {
  }

  /** Each window starts where the text position `k * (chunkSize - overlap)` says. */
  lemma ChunkPositions(text: string, chunkSize: int, overlap: int)
    requires ValidParams(chunkSize, overlap)
    ensures var chunks := Chunks(text, chunkSize, overlap);
      forall k :: 0 <= k < |chunks| ==>
        ChunkStart(k, chunkSize, overlap) + |chunks[k]| <= |text| &&
        chunks[k] == text[ChunkStart(k, chunkSize, overlap)..ChunkStart(k, chunkSize, overlap) + |chunks[k]|]
    ensures forall k: nat :: k < |Chunks(text, chunkSize, overlap)| ==>
      ChunkStart(k, chunkSize, overlap) == k * (chunkSize - overlap)
  {
    forall k: nat | k < |Chunks(text, chunkSize, overlap)|
      ensures ChunkStart(k, chunkSize, overlap) == k * (chunkSize - overlap)
    {
      StartIsProduct(k, chunkSize, overlap);
    }
  }

  /** Two consecutive windows share exactly `overlap` characters: the tail of
      one is the head of the next. */
  lemma ConsecutiveChunksOverlap(text: string, chunkSize: int, overlap: int, k: nat)
    requires ValidParams(chunkSize, overlap)
    requires k + 1 < |Chunks(text, chunkSize, overlap)|
    ensures var chunks := Chunks(text, chunkSize, overlap);
      |chunks[k]| == chunkSize && |chunks[k + 1]| >= overlap &&
      chunks[k][chunkSize - overlap..] == chunks[k + 1][..overlap]
  {
    var chunks := Chunks(text, chunkSize, overlap);
    var here := ChunkStart(k, chunkSize, overlap);
    var next := ChunkStart(k + 1, chunkSize, overlap);
    assert here + chunkSize < |text|;
    assert chunks[k] == text[here..here + chunkSize];
    assert chunks[k][chunkSize - overlap..] == text[next..here + chunkSize];
    assert chunks[k + 1][..overlap] == text[next..next + overlap];
  }

  /** Python's `s[k:]` for `k >= 0`: empty when `k` is past the end. */
  function Drop(s: string, k: nat): string
  {
    if k <= |s| then s[k..] else []
  }

  /** `chunks[0] + "".join(c[overlap:] for c in chunks[1:])`: glue the windows
      back together, dropping the repeated head of every window after the first. */
  function Reassemble(chunks: seq<string>, overlap: nat): string
  {
    if |chunks| == 0 then []
    else if |chunks| == 1 then chunks[0]
    else Reassemble(chunks[..|chunks| - 1], overlap) + Drop(chunks[|chunks| - 1], overlap)
  }

  /** One gluing step: the text up to `here + overlap`, followed by the window
      `text[here..end]` without its first `overlap` characters, is the text up to `end`. */
  lemma GlueStep(text: string, here: nat, end: nat, overlap: nat)
    requires here + overlap <= end <= |text|
    ensures text[..here + overlap] + Drop(text[here..end], overlap) == text[..end]
  {
    assert Drop(text[here..end], overlap) == text[here + overlap..end];
  }

  /** Gluing one more window onto a non-empty list appends that window without its head. */
  lemma ReassembleSnoc(front: seq<string>, last: string, overlap: nat)
    requires front != []
    ensures Reassemble(front + [last], overlap) == Reassemble(front, overlap) + Drop(last, overlap)
  {
    var all := front + [last];
    assert all[..|all| - 1] == front;
  }

  /** `chunks[k]` is window `k` of `text`. */
  predicate WindowAt(text: string, chunkSize: int, overlap: int, chunks: seq<string>, k: nat)
    requires ValidParams(chunkSize, overlap)
  {
    k < |chunks| && ChunkStart(k, chunkSize, overlap) <= |text| && chunks[k] == Window(text, k, chunkSize, overlap)
  }

  /** One step of the reassembly: if the first `m` windows glue to the text up
      to `here + overlap`, and window `m` is `text[here..end]`, the first
      `m + 1` windows glue to the text up to `end`. */
  lemma ReassembleStep(text: string, chunks: seq<string>, m: nat, here: nat, end: nat, overlap: nat)
    requires 1 <= m < |chunks|
    requires here + overlap <= end <= |text|
    requires Reassemble(chunks[..m], overlap) == text[..here + overlap]
    requires chunks[m] == text[here..end]
    ensures Reassemble(chunks[..m + 1], overlap) == text[..end]
  {
    assert chunks[..m + 1] == chunks[..m] + [chunks[m]];
    ReassembleSnoc(chunks[..m], chunks[m], overlap);
    GlueStep(text, here, end, overlap);
  }

  /** Windows `0` to `m` of `text` are the first `m + 1` entries of `chunks`. */
  predicate WindowsUpTo(text: string, chunkSize: int, overlap: int, chunks: seq<string>, m: nat)
    requires ValidParams(chunkSize, overlap)
  {
    WindowAt(text, chunkSize, overlap, chunks, m) && (m == 0 || WindowsUpTo(text, chunkSize, overlap, chunks, m - 1))
  }

  lemma {:induction false} AllWindowsUpTo(text: string, chunkSize: int, overlap: int, chunks: seq<string>, m: nat)
    requires ValidParams(chunkSize, overlap)
    requires forall k: nat :: k <= m ==> WindowAt(text, chunkSize, overlap, chunks, k)
    ensures WindowsUpTo(text, chunkSize, overlap, chunks, m)
  {
    if m > 0 {
      AllWindowsUpTo(text, chunkSize, overlap, chunks, m - 1);
    }
  }

  /** Adding window `m` to the glued windows before it extends the text to the end of window `m`. */
  lemma ReassembleNext(text: string, chunkSize: int, overlap: int, chunks: seq<string>, m: nat)
    requires ValidParams(chunkSize, overlap)
    requires 1 <= m
    requires WindowAt(text, chunkSize, overlap, chunks, m)
    requires ChunkStart(m - 1, chunkSize, overlap) + chunkSize < |text|
    requires Reassemble(chunks[..m], overlap) == text[..ChunkStart(m - 1, chunkSize, overlap) + chunkSize]
    ensures Reassemble(chunks[..m + 1], overlap)
         == text[..Min(ChunkStart(m, chunkSize, overlap) + chunkSize, |text|)]
  {
    var here := ChunkStart(m, chunkSize, overlap);
    var end := Min(here + chunkSize, |text|);
    assert here == ChunkStart(m - 1, chunkSize, overlap) + (chunkSize - overlap);
    assert chunks[m] == text[here..end];
    ReassembleStep(text, chunks, m, here, end, overlap);
  }

  /** Gluing windows `0` to `m` gives the text up to the end of window `m`. */
  lemma {:induction false} ReassemblePrefix(text: string, chunkSize: int, overlap: int, chunks: seq<string>, m: nat)
    requires ValidParams(chunkSize, overlap)
    requires WindowsUpTo(text, chunkSize, overlap, chunks, m)
    requires m >= 1 ==> ChunkStart(m - 1, chunkSize, overlap) + chunkSize < |text|
    ensures m < |chunks|
    ensures Reassemble(chunks[..m + 1], overlap)
         == text[..Min(ChunkStart(m, chunkSize, overlap) + chunkSize, |text|)]
  {
    if m == 0 {
      assert chunks[..1] == [chunks[0]];
    } else {
      var before := m - 1;
      if before >= 1 {
        StartMonotone(before - 1, before, chunkSize, overlap);
      }
      ReassemblePrefix(text, chunkSize, overlap, chunks, before);
      assert before + 1 == m;
      ReassembleNext(text, chunkSize, overlap, chunks, m);
    }
  }

  /** A list of windows whose last one, window `last`, reaches the end of the
      text glues back to the text. */
  lemma ReassembleAll(text: string, chunkSize: int, overlap: int, chunks: seq<string>, last: nat)
    requires ValidParams(chunkSize, overlap)
    requires |chunks| == last + 1
    requires WindowsUpTo(text, chunkSize, overlap, chunks, last)
    requires last >= 1 ==> ChunkStart(last - 1, chunkSize, overlap) + chunkSize < |text|
    requires ChunkStart(last, chunkSize, overlap) + chunkSize >= |text|
    ensures Reassemble(chunks, overlap) == text
  {
    ReassemblePrefix(text, chunkSize, overlap, chunks, last);
    assert Min(ChunkStart(last, chunkSize, overlap) + chunkSize, |text|) == |text|;
    assert chunks[..last + 1] == chunks;
    assert text[..|text|] == text;
  }

  /** Round trip: gluing the windows back together gives the original text. */
  lemma {:induction false} ReassembleChunks(text: string, chunkSize: int, overlap: int)
    requires ValidParams(chunkSize, overlap)
    ensures Reassemble(Chunks(text, chunkSize, overlap), overlap) == text
  {
    var chunks := Chunks(text, chunkSize, overlap);
    if chunks != [] {
      var last := |chunks| - 1;
      ChunksAreWindows(text, chunkSize, overlap, last);
      ReassembleAll(text, chunkSize, overlap, chunks, last);
    }
  }

  /** The facts about `Chunks` that the reassembly proof uses, for a non-empty
      list whose last index is `last`: the entries are the windows in order,
      and the last window reaches the end of the text while the one before it
      does not. */
  lemma ChunksAreWindows(text: string, chunkSize: int, overlap: int, last: nat)
    requires ValidParams(chunkSize, overlap)
    requires last + 1 == |Chunks(text, chunkSize, overlap)|
    ensures WindowsUpTo(text, chunkSize, overlap, Chunks(text, chunkSize, overlap), last)
    ensures ChunkStart(last, chunkSize, overlap) + chunkSize >= |text|
    ensures last >= 1 ==> ChunkStart(last - 1, chunkSize, overlap) + chunkSize < |text|
  {
    var chunks := Chunks(text, chunkSize, overlap);
    forall k: nat | k <= last
      ensures WindowAt(text, chunkSize, overlap, chunks, k)
    {
    }
    AllWindowsUpTo(text, chunkSize, overlap, chunks, last);
  }
}
