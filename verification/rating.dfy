/** The overall rating: five sub-metrics of a transcript blended with fixed
    weights, scaled by ten and clamped to 0..10. The speed rating enters on
    its own 0..10 scale while the other four are ratios, so speed dominates
    the blend and most performances reach the ceiling. */
module Rating {
  import opened TimedWords
  import Rhymes
  import Flow
  import Vocabulary

  /** The five sub-metrics of one transcript. */
  datatype Metrics = Metrics(
    rhymeDensity: real,
    speed: int,
    complexity: real,
    confidence: real,
    emphasis: real)

  function MinReal(a: real, b: real): real { if a <= b then a else b }

  function MaxReal(a: real, b: real): real { if a >= b then a else b }

  lemma DensityHelper(k: nat, n: nat)
    requires n > 0 && 2 * k <= n * (n - 1)
    ensures 0.0 <= Ratio(k, n)
    ensures 2.0 * Ratio(k, n) <= (n - 1) as real
  {
    var r := Ratio(k, n);
    var y := (n - 1) as real - 2.0 * r;
    assert ((n - 1) * n) as real == (n - 1) as real * n as real;
    assert y * (n as real) == ((n - 1) * n) as real - (2 * k) as real;
    NonNegFactor(y, n as real);
    NonNegFactor(r, n as real);
  }

  lemma DensityExact(k: nat, n: nat)
    requires n > 0 && 2 * k == n * (n - 1)
    ensures 2.0 * Ratio(k, n) == (n - 1) as real
  {
    var r := Ratio(k, n);
    var y := (n - 1) as real - 2.0 * r;
    assert ((n - 1) * n) as real == (n - 1) as real * n as real;
    assert y * (n as real) == 0.0;
    NonNegFactor(y, n as real);
    NonNegFactor(-y, n as real);
  }

  /** Rhyme pairs per word. Never negative, but not bounded by 1: at most
      (n-1)/2 for n words. */
  function RhymeDensity(ws: seq<Word>): (r: real)
    ensures |ws| == 0 ==> r == 0.0
    ensures 0.0 <= r
    ensures |ws| > 0 ==> 2.0 * r <= (|ws| - 1) as real
  {
    DensityBound(ws);
    Ratio(|Rhymes.FindRhymePairs(Texts(ws))|, |ws|)
  }

  lemma DensityBound(ws: seq<Word>)
    ensures 0.0 <= Ratio(|Rhymes.FindRhymePairs(Texts(ws))|, |ws|)
    ensures |ws| > 0 ==> 2.0 * Ratio(|Rhymes.FindRhymePairs(Texts(ws))|, |ws|) <= (|ws| - 1) as real
  {
    var ts := Texts(ws);
    var n := |ws|;
    var k := |Rhymes.FindRhymePairs(ts)|;
    assert Ratio(|Rhymes.FindRhymePairs(Texts(ws))|, |ws|) == Ratio(k, n);
    if n > 0 {
      Rhymes.RhymePairCountBound(ts);
      assert |ts| == n;
      assert 2 * k <= n * (n - 1);
      DensityHelper(k, n);
    }
  }

  /** When every word shares one rhyme key the density reaches (n-1)/2. */
  lemma AllRhymingDensity(ws: seq<Word>)
    requires |ws| > 0 && Rhymes.AllRhyme(Texts(ws))
    ensures 2.0 * RhymeDensity(ws) == (|ws| - 1) as real
  {
    Rhymes.AllRhymingPairCount(Texts(ws));
    DensityExact(|Rhymes.FindRhymePairs(Texts(ws))|, |ws|);
  }

  /** Four identical words: six pairs, a density of 1.5. */
  lemma DensityCanExceedOne()
    ensures RhymeDensity(seq(4, _ => Word("flow", 0.0, 0.1, 0.9))) == 1.5
  {
    var ws := seq(4, _ => Word("flow", 0.0, 0.1, 0.9));
    assert Rhymes.AllRhyme(Texts(ws));
    AllRhymingDensity(ws);
  }

  function Analyse(ws: seq<Word>): Metrics
  {
    Metrics(
      RhymeDensity(ws),
      Flow.RapSpeed(ws),
      Vocabulary.WordComplexity(ws),
      Vocabulary.ConfidenceRating(ws),
      Vocabulary.EmphasisRating(ws))
  }

  /** The weighted blend: 30% rhyme density, 20% each for speed, complexity
      and confidence, 10% emphasis. With no negative ratio, a fifth of the
      speed rating is a floor. */
  function Weighted(m: Metrics): (r: real)
    ensures (0.0 <= m.rhymeDensity && 0.0 <= m.complexity && 0.0 <= m.confidence
             && 0.0 <= m.emphasis) ==> r >= 0.2 * m.speed as real
  {
    m.rhymeDensity * 0.3 + (m.speed as real) * 0.2 + m.complexity * 0.2
      + m.confidence * 0.2 + m.emphasis * 0.1
  }

  /** The weights are non-negative: raising any sub-metric never lowers the
      blend. */
  lemma WeightedMonotone(a: Metrics, b: Metrics)
    requires a.rhymeDensity <= b.rhymeDensity && a.speed <= b.speed
    requires a.complexity <= b.complexity && a.confidence <= b.confidence
    requires a.emphasis <= b.emphasis
    ensures Weighted(a) <= Weighted(b)
  {
  }

  /** The weights add up to one: five perfect sub-metrics (speed on its own
      scale of 1) blend to exactly 1. */
  lemma WeightsSumToOne()
    ensures Weighted(Metrics(1.0, 1, 1.0, 1.0, 1.0)) == 1.0
  {
  }

  /** The overall rating of a transcript: 0 for no words, otherwise the blend
      scaled by ten and clamped to 0..10. */
  function RapRating(ws: seq<Word>): (r: real)
    ensures 0.0 <= r <= 10.0
    ensures |ws| == 0 ==> r == 0.0
    ensures |ws| > 0 ==> r >= 2.0
    ensures |ws| > 0 && Flow.RapSpeed(ws) >= 5 ==> r == 10.0
  {
    if |ws| == 0 then 0.0
    else MinReal(MaxReal(Weighted(Analyse(ws)) * 10.0, 0.0), 10.0)
  }

  /** Speed alone carries the rating: it is at least twice the speed rating,
      up to the ceiling. */
  lemma RatingAtLeastTwiceSpeed(ws: seq<Word>)
    requires |ws| > 0
    ensures RapRating(ws) >= MinReal(2.0 * Flow.RapSpeed(ws) as real, 10.0)
  {
  }

  /** A worked example: "flow" and "glow" rhyme on "low", "dog" rhymes with
      neither; one word of three is uncertain and none repeats. */
  function FlowGlowDog(): seq<Word>
  {
    [Word("flow", 0.0, 0.1, 0.95), Word("glow", 0.1, 0.2, 0.9), Word("dog", 0.2, 0.9, 0.5)]
  }

  /** In the example only the first two words form a rhyme pair, so the
      density is one pair per three words. */
  lemma FlowGlowDogDensity()
    ensures 3.0 * RhymeDensity(FlowGlowDog()) == 1.0
  {
    var ws := FlowGlowDog();
    var ts := Texts(ws);
    assert ts == ["flow", "glow", "dog"];
    Rhymes.FlowGlowDogPairs();
    assert |Rhymes.FindRhymePairs(ts)| == 1;
    assert RhymeDensity(ws) == Ratio(1, 3);
  }

  /** In the example every word is distinct. */
  lemma FlowGlowDogDistinct()
    ensures Vocabulary.WordComplexity(FlowGlowDog()) == 1.0
    ensures Vocabulary.EmphasisRating(FlowGlowDog()) == 0.0
  {
    var ws := FlowGlowDog();
    assert Vocabulary.AllDistinct(ws);
    Vocabulary.ComplexityOneIffDistinct(ws);
    Vocabulary.EmphasisZeroIffDistinct(ws);
  }

  /** In the example one word of three is uncertain. */
  lemma FlowGlowDogConfidence()
    ensures 3.0 * Vocabulary.ConfidenceRating(FlowGlowDog()) == 2.0
  {
    var ws := FlowGlowDog();
    assert ws[..2] == [ws[0], ws[1]] && ws[..2][..1] == [ws[0]];
    assert |Vocabulary.LowConfidenceWords(ws)| == 1;
  }

  /** The example's durations are 0.1, 0.1 and 0.7 s: an average of exactly
      0.3 s, which sits on the bound and falls into the band rated 8. */
  lemma FlowGlowDogSpeed()
    ensures Flow.RapSpeed(FlowGlowDog()) == 8
  {
    var ws := FlowGlowDog();
    assert ws[..2] == [ws[0], ws[1]] && ws[..2][..1] == [ws[0]];
    assert Flow.TotalDuration(ws[..2][..1]) == 0.1;
    assert Flow.TotalDuration(ws[..2]) == 0.2;
    assert Flow.TotalDuration(ws) == 0.9;
  }

  /** The example rates 10: its speed alone reaches the ceiling. */
  lemma FlowGlowDogRating()
    ensures RapRating(FlowGlowDog()) == 10.0
  {
    FlowGlowDogSpeed();
  }
}
