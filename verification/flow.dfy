/** Flow speed: the average time a word takes, mapped onto a 1..10 rating by
    a chain of thresholds (first match wins), with 0 reserved for a transcript
    that has no words. Faster delivery (shorter words) rates higher. */
module Flow {
  import opened TimedWords

  function Duration(w: Word): real
  {
    w.end - w.start
  }

  /** The sum of all word durations, accumulated left to right. */
  function TotalDuration(ws: seq<Word>): (t: real)
    ensures |ws| == 1 ==> t == Duration(ws[0])
  {
    if |ws| == 0 then 0.0 else TotalDuration(ws[..|ws| - 1]) + Duration(ws[|ws| - 1])
  }

  /** The total splits over any cut of the transcript, so the order in which
      the durations are added does not matter. */
  lemma {:induction false} TotalDurationAppend(a: seq<Word>, b: seq<Word>)
    ensures TotalDuration(a + b) == TotalDuration(a) + TotalDuration(b)
  {
    if |b| > 0 {
      var b' := b[..|b| - 1];
      TotalDurationAppend(a, b');
      assert (a + b)[..|a + b| - 1] == a + b';
    } else {
      assert a + b == a;
    }
  }

  /** The mean duration: times the number of words it gives back the total. */
  function AverageDuration(ws: seq<Word>): (r: real)
    requires |ws| > 0
    ensures r * |ws| as real == TotalDuration(ws)
  {
    TotalDuration(ws) / |ws| as real
  }

  /** The threshold chain: each bound is strict, so an average sitting exactly
      on a bound falls into the slower band. */
  function SpeedOfAverage(avg: real): (r: int)
    ensures 1 <= r <= 10
  {
    if avg < 0.2 then 10
    else if avg < 0.3 then 9
    else if avg < 0.4 then 8
    else if avg < 0.5 then 7
    else if avg < 0.6 then 6
    else if avg < 0.7 then 5
    else if avg < 0.8 then 4
    else if avg < 0.9 then 3
    else if avg < 1.0 then 2
    else 1
  }

  /** The speed rating of a transcript: 0 exactly when there are no words,
      otherwise a rating in 1..10. */
  function RapSpeed(ws: seq<Word>): (r: int)
    ensures r == 0 <==> |ws| == 0
    ensures |ws| > 0 ==> 1 <= r <= 10
  {
    if |ws| == 0 then 0 else SpeedOfAverage(AverageDuration(ws))
  }

  function Clamp(x: int, lo: int, hi: int): int
  {
    if x < lo then lo else if x > hi then hi else x
  }

  /** The chain is a step function of the average: one rating point per
      tenth of a second, clamped to 1..10. */
  lemma SpeedStepFormula(avg: real)
    ensures SpeedOfAverage(avg) == Clamp(11 - (10.0 * avg).Floor, 1, 10)
  {
    var f := (10.0 * avg).Floor;
    assert f as real <= 10.0 * avg < f as real + 1.0;
  }

  /** Slower delivery never rates higher. */
  lemma SpeedNonIncreasing(a: real, b: real)
    requires a <= b
    ensures SpeedOfAverage(b) <= SpeedOfAverage(a)
  {
  }

  /** The boundary behaviour of the chain. */
  lemma SpeedBoundaries()
    ensures forall avg :: avg < 0.2 ==> SpeedOfAverage(avg) == 10
    ensures SpeedOfAverage(0.2) == 9
    ensures forall avg :: avg >= 1.0 ==> SpeedOfAverage(avg) == 1
    ensures SpeedOfAverage(1.0) == 1
  {
  }

  lemma {:induction false} TotalBelow(ws: seq<Word>, c: real)
    requires forall i :: 0 <= i < |ws| ==> Duration(ws[i]) < c
    ensures |ws| > 0 ==> TotalDuration(ws) < c * |ws| as real
    ensures |ws| == 0 ==> TotalDuration(ws) == 0.0
  {
    if |ws| > 0 {
      var p := ws[..|ws| - 1];
      TotalBelow(p, c);
      assert Duration(ws[|ws| - 1]) < c;
    }
  }

  lemma {:induction false} TotalAtLeast(ws: seq<Word>, c: real)
    requires forall i :: 0 <= i < |ws| ==> Duration(ws[i]) >= c
    ensures TotalDuration(ws) >= c * |ws| as real
  {
    if |ws| > 0 {
      var p := ws[..|ws| - 1];
      TotalAtLeast(p, c);
      assert Duration(ws[|ws| - 1]) >= c;
    }
  }

  lemma QuotientAtLeast(t: real, n: real, c: real)
    requires n > 0.0 && t >= c * n
    ensures t / n >= c
  {
    assert t / n - c == (t - c * n) / n;
  }

  /** When every word lasts under 0.2 s the average does too: top rating. */
  lemma AllFastWordsRateTen(ws: seq<Word>)
    requires |ws| > 0
    requires forall i :: 0 <= i < |ws| ==> Duration(ws[i]) < 0.2
    ensures RapSpeed(ws) == 10
  {
    TotalBelow(ws, 0.2);
  }

  /** When every word lasts at least a second: bottom rating. */
  lemma AllSlowWordsRateOne(ws: seq<Word>)
    requires |ws| > 0
    requires forall i :: 0 <= i < |ws| ==> Duration(ws[i]) >= 1.0
    ensures RapSpeed(ws) == 1
  {
    TotalAtLeast(ws, 1.0);
    QuotientAtLeast(TotalDuration(ws), |ws| as real, 1.0);
  }

  lemma {:induction false} TotalPointwise(a: seq<Word>, b: seq<Word>)
    requires |a| == |b|
    requires forall i :: 0 <= i < |a| ==> Duration(a[i]) <= Duration(b[i])
    ensures TotalDuration(a) <= TotalDuration(b)
  {
    if |a| > 0 {
      TotalPointwise(a[..|a| - 1], b[..|b| - 1]);
    }
  }

  /** Making every word of a transcript last at least as long never raises
      the speed rating. */
  lemma RapSpeedPointwiseMonotone(a: seq<Word>, b: seq<Word>)
    requires |a| == |b|
    requires forall i :: 0 <= i < |a| ==> Duration(a[i]) <= Duration(b[i])
    ensures RapSpeed(b) <= RapSpeed(a)
  {
    if |a| > 0 {
      TotalPointwise(a, b);
      assert AverageDuration(a) <= AverageDuration(b);
      SpeedNonIncreasing(AverageDuration(a), AverageDuration(b));
    }
  }

  /** The transcript with every timestamp moved by d seconds. */
  function Shift(ws: seq<Word>, d: real): (vs: seq<Word>)
    ensures |vs| == |ws|
    ensures forall i :: 0 <= i < |ws| ==>
      vs[i] == Word(ws[i].text, ws[i].start + d, ws[i].end + d, ws[i].conf)
  {
    seq(|ws|, i requires 0 <= i < |ws| => Word(ws[i].text, ws[i].start + d, ws[i].end + d, ws[i].conf))
  }

  lemma {:induction false} TotalShiftInvariant(ws: seq<Word>, d: real)
    ensures TotalDuration(Shift(ws, d)) == TotalDuration(ws)
  {
    if |ws| > 0 {
      var p := ws[..|ws| - 1];
      TotalShiftInvariant(p, d);
      assert Shift(ws, d)[..|ws| - 1] == Shift(p, d);
    }
  }

  /** Only durations matter: moving the whole performance in time does not
      change its speed rating. */
  lemma RapSpeedShiftInvariant(ws: seq<Word>, d: real)
    ensures RapSpeed(Shift(ws, d)) == RapSpeed(ws)
  {
    TotalShiftInvariant(ws, d);
  }
}
