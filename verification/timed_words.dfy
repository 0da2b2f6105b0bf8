/** The data model of the scoring engine: a transcript is an ordered sequence
    of timed words, as the transcription provider reports them. Every metric
    divides a count by the number of words, guarded against the empty
    transcript; that guarded division is defined here once. */
module TimedWords {

  /** One recognised word: its text exactly as the provider returned it (case
      preserved), its start and end time in seconds, and the provider's
      confidence. Seconds and confidences are exact reals in this model. */
  datatype Word = Word(text: string, start: real, end: real, conf: real)

  /** The texts of a transcript, in order. */
  function Texts(ws: seq<Word>): (ts: seq<string>)
    ensures |ts| == |ws|
    ensures forall i :: 0 <= i < |ws| ==> ts[i] == ws[i].text
  {
    seq(|ws|, i requires 0 <= i < |ws| => ws[i].text)
  }

  /** A count divided by the number of words, or 0 when there are none. */
  function Ratio(count: int, n: nat): (r: real)
    ensures n == 0 ==> r == 0.0
    ensures n > 0 ==> r * (n as real) == count as real
    ensures 0 <= count <= n ==> 0.0 <= r <= 1.0
    ensures n > 0 ==> (r == 0.0 <==> count == 0)
    ensures n > 0 ==> (r == 1.0 <==> count == n)
  {
    if n == 0 then 0.0 else count as real / n as real
  }

  lemma NonNegFactor(a: real, c: real)
    requires c > 0.0 && a * c >= 0.0
    ensures a >= 0.0
  {
  }

  /** A ratio is at most x when the count is at most x per word. */
  lemma RatioAtMost(count: int, n: nat, x: real)
    requires n > 0 && count as real <= x * n as real
    ensures Ratio(count, n) <= x
  {
    var r := Ratio(count, n);
    assert (x - r) * (n as real) == x * (n as real) - count as real;
    NonNegFactor(x - r, n as real);
  }

  /** A ratio is at least x when the count is at least x per word. */
  lemma RatioAtLeast(count: int, n: nat, x: real)
    requires n > 0 && x * n as real <= count as real
    ensures x <= Ratio(count, n)
  {
    var r := Ratio(count, n);
    assert (r - x) * (n as real) == count as real - x * (n as real);
    NonNegFactor(r - x, n as real);
  }

  /** Ratios over the same number of words add up. */
  lemma RatioAdd(a: int, b: int, n: nat)
    ensures Ratio(a, n) + Ratio(b, n) == Ratio(a + b, n)
  {
    if n > 0 {
      var x := Ratio(a, n) + Ratio(b, n);
      assert x * (n as real) == (a + b) as real;
      RatioAtMost(a + b, n, x);
      RatioAtLeast(a + b, n, x);
    }
  }
}
