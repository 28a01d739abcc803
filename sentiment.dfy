/** Chunked sentiment scoring (`analyze_sentiment_with_chunks`): the text is cut
    into the default windows, each window gets a polarity from an external
    scorer, and the mean polarity is mapped to a three-way label. */
module Sentiment {
  import opened Chunking

  datatype Label = Positive | Negative | Neutral

  /** The scores are mapped to a label with strict thresholds at plus and minus this value. */
  const Threshold: real := 0.05

  /** The labelling rule: strictly above the threshold is positive, strictly
      below its negation is negative, anything in between (bounds included) neutral. */
  function Classify(avg: real): (sentimentLabel: Label)
    ensures sentimentLabel == Positive <==> avg > Threshold
    ensures sentimentLabel == Negative <==> avg < -Threshold
    ensures sentimentLabel == Neutral <==> -Threshold <= avg <= Threshold
  {
    if avg > Threshold then Positive
    else if avg < -Threshold then Negative
    else Neutral
  }

  /** Position of a label on the negative-to-positive scale. */
  function Rank(l: Label): int
  {
    match l
    case Negative => -1
    case Neutral => 0
    case Positive => 1
  }

  /** A higher average never gets a lower label. */
  lemma ClassifyMonotone(a: real, b: real)
    requires a <= b
    ensures Rank(Classify(a)) <= Rank(Classify(b))
  {
  }

  /** Python's `sum(xs)`, exact. */
  function Sum(xs: seq<real>): real
  {
    if xs == [] then 0.0 else Sum(xs[..|xs| - 1]) + xs[|xs| - 1]
  }

  function Mean(xs: seq<real>): real
    requires |xs| > 0
  {
    Sum(xs) / (|xs| as real)
  }

  lemma {:induction false} SumBounds(xs: seq<real>, lo: real, hi: real)
    requires forall i :: 0 <= i < |xs| ==> lo <= xs[i] <= hi
    ensures (|xs| as real) * lo <= Sum(xs) <= (|xs| as real) * hi
  {
    if xs != [] {
      SumBounds(xs[..|xs| - 1], lo, hi);
    }
  }

  /** The mean lies between the smallest and largest possible element. */
  lemma MeanBounds(xs: seq<real>, lo: real, hi: real)
    requires |xs| > 0
    requires forall i :: 0 <= i < |xs| ==> lo <= xs[i] <= hi
    ensures lo <= Mean(xs) <= hi
  {
    SumBounds(xs, lo, hi);
  }

  /** The polarity of every window, in order. */
  function Polarities(chunks: seq<string>, polarity: string -> real): (ps: seq<real>)
    ensures |ps| == |chunks|
    ensures forall i :: 0 <= i < |chunks| ==> ps[i] == polarity(chunks[i])
  {
    seq(|chunks|, i requires 0 <= i < |chunks| => polarity(chunks[i]))
  }

  /** The score that `analyze_sentiment_with_chunks` reports for `text`. */
  function Score(text: string, polarity: string -> real): real
  {
    var chunks := Chunks(text, DefaultChunkSize, DefaultOverlap);
    if chunks == [] then 0.0 else Mean(Polarities(chunks, polarity))
  }

  /** `analyze_sentiment_with_chunks(text)`, with TextBlob's polarity passed in
      as `polarity`. */
  method AnalyzeSentiment(text: string, polarity: string -> real) returns (avg: real, sentimentLabel: Label)
    ensures text == [] ==> avg == 0.0 && sentimentLabel == Neutral
    ensures text != [] ==> avg == Mean(Polarities(Chunks(text, DefaultChunkSize, DefaultOverlap), polarity))
    ensures avg == Score(text, polarity)
    ensures sentimentLabel == Classify(avg)
  {
    if text == [] {
      return 0.0, Neutral;
    }
    var chunks := ChunkText(text, DefaultChunkSize, DefaultOverlap);
    if chunks == [] {
      return 0.0, Neutral;
    }
    var chunkPolarities := [];
    for i := 0 to |chunks|
      invariant chunkPolarities == Polarities(chunks[..i], polarity)
    {
      chunkPolarities := chunkPolarities + [polarity(chunks[i])];
    }
    assert chunks[..|chunks|] == chunks;
    avg := Sum(chunkPolarities) / (|chunkPolarities| as real);
    if avg > Threshold {
      sentimentLabel := Positive;
    } else if avg < -Threshold {
      sentimentLabel := Negative;
    } else {
      sentimentLabel := Neutral;
    }
  }

  /** The result is the specification score and the sentimentLabel of that score;
      in particular the empty text is neutral with score zero. */
  lemma AnalyzeMatchesScore(text: string, polarity: string -> real)
    ensures text == [] ==> Score(text, polarity) == 0.0
    ensures text != [] ==>
      Chunks(text, DefaultChunkSize, DefaultOverlap) != [] &&
      Score(text, polarity) == Mean(Polarities(Chunks(text, DefaultChunkSize, DefaultOverlap), polarity))
  {
    ChunkSizes(text, DefaultChunkSize, DefaultOverlap);
  }

  /** A scorer with values in [-1, 1] (TextBlob's range) gives an average in [-1, 1]. */
  lemma ScoreInPolarityRange(text: string, polarity: string -> real)
    requires forall s :: -1.0 <= polarity(s) <= 1.0
    ensures -1.0 <= Score(text, polarity) <= 1.0
  {
    var chunks := Chunks(text, DefaultChunkSize, DefaultOverlap);
    if chunks != [] {
      MeanBounds(Polarities(chunks, polarity), -1.0, 1.0);
    }
  }

  /** A non-empty text of at most one window is scored as a whole. */
  lemma ShortTextScoredWhole(text: string, polarity: string -> real)
    requires 0 < |text| <= DefaultChunkSize
    ensures Chunks(text, DefaultChunkSize, DefaultOverlap) == [text]
    ensures Score(text, polarity) == polarity(text)
  {
    var chunks := Chunks(text, DefaultChunkSize, DefaultOverlap);
    ChunkSizes(text, DefaultChunkSize, DefaultOverlap);
    assert |chunks| == 1;
    assert chunks[0] == text[0..|text|] == text;
    assert chunks == [text];
    assert Polarities(chunks, polarity) == [polarity(text)];
    var ps := [polarity(text)];
    assert ps[..0] == [];
    assert Sum(ps) == polarity(text);
    assert Mean(ps) == polarity(text);
    assert Score(text, polarity) == Mean(ps);
  }

  /** A text whose windows all score the same value `p` gets `p` as score. */
  lemma UniformPolarity(text: string, polarity: string -> real, p: real)
    requires text != []
    requires forall c :: c in Chunks(text, DefaultChunkSize, DefaultOverlap) ==> polarity(c) == p
    ensures Score(text, polarity) == p
  {
    var chunks := Chunks(text, DefaultChunkSize, DefaultOverlap);
    ChunkSizes(text, DefaultChunkSize, DefaultOverlap);
    MeanBounds(Polarities(chunks, polarity), p, p);
  }
}
