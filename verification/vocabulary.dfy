/** The three vocabulary metrics of a transcript: word complexity (distinct
    texts per word), confidence (share of words the provider was sure of) and
    emphasis (distinct texts that recur, per word). Texts are compared
    exactly, case included. */
module Vocabulary {
  import opened TimedWords

  /** Words below this confidence count as uncertain. */
  const LowConfidenceThreshold: real := 0.8

  predicate AllDistinct(ws: seq<Word>)
  {
    forall i, j :: 0 <= i < j < |ws| ==> ws[i].text != ws[j].text
  }

  /** The set of distinct texts, gathered left to right. */
  function TextSet(ws: seq<Word>): (s: set<string>)
    ensures forall i :: 0 <= i < |ws| ==> ws[i].text in s
    ensures |s| <= |ws|
    ensures |ws| > 0 ==> |s| >= 1
  {
    if |ws| == 0 then {}
    else
      var p := ws[..|ws| - 1];
      var s := TextSet(p);
      assert forall i :: 0 <= i < |p| ==> p[i] == ws[i];
      s + {ws[|ws| - 1].text}
  }

  /** Every member of the set is the text of some word. */
  lemma {:induction false} TextSetWitness(ws: seq<Word>, t: string) returns (i: nat)
    requires t in TextSet(ws)
    ensures i < |ws| && ws[i].text == t
  {
    var p := ws[..|ws| - 1];
    if t == ws[|ws| - 1].text {
      i := |ws| - 1;
    } else {
      i := TextSetWitness(p, t);
      assert p[i] == ws[i];
    }
  }

  /** The set of texts has one element per word exactly when no text repeats. */
  lemma {:induction false} TextSetFullIffDistinct(ws: seq<Word>)
    ensures |TextSet(ws)| == |ws| <==> AllDistinct(ws)
  {
    if |ws| > 0 {
      var p := ws[..|ws| - 1];
      var x := ws[|ws| - 1].text;
      TextSetFullIffDistinct(p);
      assert TextSet(ws) == TextSet(p) + {x};
      if x in TextSet(p) {
        var i := TextSetWitness(p, x);
        assert ws[i].text == ws[|ws| - 1].text;
        assert !AllDistinct(ws);
      } else {
        assert |TextSet(ws)| == |TextSet(p)| + 1;
        if AllDistinct(p) {
          forall i, j | 0 <= i < j < |ws| ensures ws[i].text != ws[j].text {
            assert p[i] == ws[i];
            if j < |p| {
              assert p[j] == ws[j];
            } else {
              assert p[i].text in TextSet(p);
            }
          }
        } else {
          var i, j :| 0 <= i < j < |p| && p[i].text == p[j].text;
          assert ws[i].text == ws[j].text;
        }
      }
    }
  }

  /** Distinct texts over total words. */
  function WordComplexity(ws: seq<Word>): (r: real)
    ensures |ws| == 0 ==> r == 0.0
    ensures |ws| > 0 ==> 0.0 < r <= 1.0
  {
    Ratio(|TextSet(ws)|, |ws|)
  }

  /** Full complexity means that no word was used twice. */
  lemma ComplexityOneIffDistinct(ws: seq<Word>)
    requires |ws| > 0
    ensures WordComplexity(ws) == 1.0 <==> AllDistinct(ws)
  {
    TextSetFullIffDistinct(ws);
  }

  predicate IsLowConfidence(w: Word)
  {
    w.conf < LowConfidenceThreshold
  }

  /** The uncertain words, in transcript order. */
  function LowConfidenceWords(ws: seq<Word>): (r: seq<Word>)
    ensures |r| == 0 <==> forall i :: 0 <= i < |ws| ==> !IsLowConfidence(ws[i])
    ensures |r| == |ws| <==> forall i :: 0 <= i < |ws| ==> IsLowConfidence(ws[i])
    ensures |r| <= |ws|
  {
    if |ws| == 0 then []
    else
      var p := ws[..|ws| - 1];
      var w := ws[|ws| - 1];
      assert ws == p + [w];
      assert forall i :: 0 <= i < |p| ==> p[i] == ws[i];
      LowConfidenceWords(p) + (if IsLowConfidence(w) then [w] else [])
  }

  /** Filtering below the threshold holds exactly the uncertain words. */
  ghost predicate FiltersLow(lows: multiset<Word>, all: multiset<Word>)
  {
    forall v :: lows[v] == if IsLowConfidence(v) then all[v] else 0
  }

  /** One more word keeps the filter exact. */
  lemma FiltersLowStep(lows: multiset<Word>, all: multiset<Word>, w: Word)
    requires FiltersLow(lows, all)
    ensures FiltersLow(lows + multiset(if IsLowConfidence(w) then [w] else []), all + multiset{w})
  {
  }

  /** As a multiset, the uncertain words are exactly the words below the
      threshold, each with its multiplicity in the transcript. */
  lemma {:induction false} LowConfidenceWordsExact(ws: seq<Word>)
    ensures FiltersLow(multiset(LowConfidenceWords(ws)), multiset(ws))
  {
    if |ws| > 0 {
      var p := ws[..|ws| - 1];
      var w := ws[|ws| - 1];
      var last := if IsLowConfidence(w) then [w] else [];
      LowConfidenceWordsExact(p);
      assert ws == p + [w];
      assert multiset(ws) == multiset(p) + multiset{w};
      assert LowConfidenceWords(ws) == LowConfidenceWords(p) + last;
      assert multiset(LowConfidenceWords(ws)) == multiset(LowConfidenceWords(p)) + multiset(last);
      FiltersLowStep(multiset(LowConfidenceWords(p)), multiset(p), w);
    }
  }

  /** One minus the share of uncertain words; 0 for an empty transcript. */
  function ConfidenceRating(ws: seq<Word>): (r: real)
    ensures 0.0 <= r <= 1.0
    ensures |ws| == 0 ==> r == 0.0
    ensures |ws| > 0 ==> (r == 1.0 <==> forall i :: 0 <= i < |ws| ==> !IsLowConfidence(ws[i]))
    ensures |ws| > 0 ==> (r == 0.0 <==> forall i :: 0 <= i < |ws| ==> IsLowConfidence(ws[i]))
  {
    if |ws| == 0 then 0.0
    else
      1.0 - Ratio(|LowConfidenceWords(ws)|, |ws|)
  }

  /** The count map after one more occurrence of t. */
  function Bump(m: map<string, nat>, t: string): map<string, nat>
  {
    m[t := (if t in m then m[t] else 0) + 1]
  }

  /** How often each text occurs, counted left to right. */
  function WordCounts(ws: seq<Word>): (m: map<string, nat>)
    ensures m.Keys == TextSet(ws)
    ensures forall t :: t in m ==> m[t] >= 1
  {
    if |ws| == 0 then map[]
    else Bump(WordCounts(ws[..|ws| - 1]), ws[|ws| - 1].text)
  }

  /** The count map agrees with the multiset of texts. */
  lemma {:induction false} WordCountsExact(ws: seq<Word>)
    ensures forall t :: t in WordCounts(ws) ==> WordCounts(ws)[t] == multiset(Texts(ws))[t]
    ensures forall t :: t !in WordCounts(ws) ==> multiset(Texts(ws))[t] == 0
  {
    if |ws| > 0 {
      var p := ws[..|ws| - 1];
      WordCountsExact(p);
      assert Texts(ws) == Texts(p) + [ws[|ws| - 1].text];
    }
  }

  /** The texts that occur more than once: the keys of the filtered count
      map, whose size is all the emphasis metric uses. */
  function RepeatedKeys(m: map<string, nat>): set<string>
  {
    set t | t in m && m[t] > 1
  }

  function SingleKeys(m: map<string, nat>): set<string>
  {
    set t | t in m && m[t] == 1
  }

  /** One more occurrence of a single text makes it repeated. */
  lemma BumpSingle(m: map<string, nat>, t: string)
    requires t in m && m[t] == 1
    ensures RepeatedKeys(Bump(m, t)) == RepeatedKeys(m) + {t}
    ensures SingleKeys(Bump(m, t)) == SingleKeys(m) - {t}
  {
  }

  /** One more occurrence of an already repeated text changes neither set. */
  lemma BumpRepeatedText(m: map<string, nat>, t: string)
    requires t in m && m[t] > 1
    ensures RepeatedKeys(Bump(m, t)) == RepeatedKeys(m)
    ensures SingleKeys(Bump(m, t)) == SingleKeys(m)
  {
  }

  /** The first occurrence of a text makes it single. */
  lemma BumpNewText(m: map<string, nat>, t: string)
    requires !(t in m && m[t] >= 1)
    ensures RepeatedKeys(Bump(m, t)) == RepeatedKeys(m)
    ensures t !in SingleKeys(m) && SingleKeys(Bump(m, t)) == SingleKeys(m) + {t}
  {
  }

  /** One more occurrence turns at most one text from single to repeated, or
      adds one single text. */
  lemma BumpShape(m: map<string, nat>, t: string)
    ensures 2 * |RepeatedKeys(Bump(m, t))| + |SingleKeys(Bump(m, t))|
         <= 2 * |RepeatedKeys(m)| + |SingleKeys(m)| + 1
  {
    if t in m && m[t] == 1 {
      BumpSingle(m, t);
      assert t !in RepeatedKeys(m) && t in SingleKeys(m);
    } else if t in m && m[t] > 1 {
      BumpRepeatedText(m, t);
    } else {
      BumpNewText(m, t);
    }
  }

  /** Twice the repeated texts plus the single ones never exceeds the number
      of words: every repeated text uses up at least two of them. */
  lemma {:induction false} CountShape(ws: seq<Word>)
    ensures 2 * |RepeatedKeys(WordCounts(ws))| + |SingleKeys(WordCounts(ws))| <= |ws|
  {
    if |ws| > 0 {
      CountShape(ws[..|ws| - 1]);
      BumpShape(WordCounts(ws[..|ws| - 1]), ws[|ws| - 1].text);
    }
  }

  lemma HalfRatio(k: nat, n: nat)
    requires 2 * k <= n
    ensures 2.0 * Ratio(k, n) <= 1.0
  {
    if n > 0 {
      RatioAtMost(k, n, 0.5);
    }
  }

  /** Distinct recurring texts over total words. */
  function EmphasisRating(ws: seq<Word>): (r: real)
    ensures |ws| == 0 ==> r == 0.0
    ensures 0.0 <= r && 2.0 * r <= 1.0
  {
    var m := WordCounts(ws);
    CountShape(ws);
    HalfRatio(|RepeatedKeys(m)|, |ws|);
    Ratio(|RepeatedKeys(m)|, |ws|)
  }

  /** A text used at two positions is counted at least twice. */
  lemma {:induction false} RepeatedUseCounted(ws: seq<Word>, i: nat, j: nat)
    requires i < j < |ws| && ws[i].text == ws[j].text
    ensures ws[i].text in RepeatedKeys(WordCounts(ws))
  {
    var p := ws[..|ws| - 1];
    var t := ws[i].text;
    var m := WordCounts(p);
    assert p[i] == ws[i];
    assert WordCounts(ws) == Bump(m, ws[|ws| - 1].text);
    if j < |p| {
      assert p[j] == ws[j];
      RepeatedUseCounted(p, i, j);
      BumpRepeated(m, ws[|ws| - 1].text, t);
    } else {
      assert t in TextSet(p);
      BumpRepeated(m, t, t);
    }
  }

  /** After one more occurrence of u, a text t is repeated if it was already
      repeated, or if it is u and had been counted before. */
  lemma BumpRepeated(m: map<string, nat>, u: string, t: string)
    requires t in RepeatedKeys(m) || (t == u && t in m && m[t] >= 1)
    ensures t in RepeatedKeys(Bump(m, u))
  {
  }

  /** No text recurs exactly when no word is used twice. */
  lemma EmphasisZeroIffDistinct(ws: seq<Word>)
    requires |ws| > 0
    ensures EmphasisRating(ws) == 0.0 <==> AllDistinct(ws)
  {
    var m := WordCounts(ws);
    CountShape(ws);
    if AllDistinct(ws) {
      TextSetFullIffDistinct(ws);
      assert m.Keys == RepeatedKeys(m) + SingleKeys(m);
      assert RepeatedKeys(m) !! SingleKeys(m);
    } else {
      var i, j :| 0 <= i < j < |ws| && ws[i].text == ws[j].text;
      RepeatedUseCounted(ws, i, j);
    }
  }

  /** Distinct texts plus recurring texts never outnumber the words. */
  lemma DistinctPlusRepeatedAtMostWords(ws: seq<Word>)
    ensures |TextSet(ws)| + |RepeatedKeys(WordCounts(ws))| <= |ws|
  {
    var m := WordCounts(ws);
    CountShape(ws);
    assert m.Keys == RepeatedKeys(m) + SingleKeys(m);
    assert RepeatedKeys(m) !! SingleKeys(m);
  }

  lemma RatioSum(a: nat, b: nat, n: nat)
    requires a + b <= n
    ensures Ratio(a, n) + Ratio(b, n) <= 1.0
  {
    RatioAdd(a, b, n);
  }

  /** Distinct words and recurring words share one budget of n words: the
      two ratios never add up to more than 1. */
  lemma ComplexityPlusEmphasisAtMostOne(ws: seq<Word>)
    ensures WordComplexity(ws) + EmphasisRating(ws) <= 1.0
  {
    DistinctPlusRepeatedAtMostWords(ws);
    RatioSum(|TextSet(ws)|, |RepeatedKeys(WordCounts(ws))|, |ws|);
  }
}
