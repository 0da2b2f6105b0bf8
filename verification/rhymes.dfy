/** Rhyme-pair detection. Two words rhyme when their last three characters
    (the whole word when it is shorter), lowercased, are equal. Every pair of
    positions i < j is compared, not only neighbours, and the pairs are
    reported in the order the two nested loops visit them. */
module Rhymes {
  import opened TimedWords

  function Min(a: int, b: int): int { if a <= b then a else b }

  predicate IsUpperAscii(c: char) { 'A' <= c <= 'Z' }

  /** ASCII lowercasing of one character; everything outside A-Z is kept. */
  function LowerChar(c: char): (d: char)
    ensures !IsUpperAscii(d)
    ensures IsUpperAscii(c) ==> d as int == c as int + 32
    ensures !IsUpperAscii(c) ==> d == c
  {
    if IsUpperAscii(c) then (c as int + 32) as char else c
  }

  /** ASCII lowercasing of a string, character by character. A string is
      left unchanged exactly when it has no upper-case letter. */
  function Lower(s: string): (r: string)
    ensures |r| == |s|
    ensures forall i :: 0 <= i < |s| ==> r[i] == LowerChar(s[i])
    ensures r == s <==> forall i :: 0 <= i < |s| ==> !IsUpperAscii(s[i])
  {
    seq(|s|, i requires 0 <= i < |s| => LowerChar(s[i]))
  }

  /** The last three characters of a string, or the whole string when it has
      fewer: a negative-start slice that never fails. */
  function LastThree(s: string): (r: string)
    ensures |r| == Min(3, |s|)
    ensures r == s[|s| - |r|..]
  {
    if |s| <= 3 then s else s[|s| - 3..]
  }

  /** The rhyme key of a word: its last three characters, lowercased. */
  function RhymeKey(s: string): (k: string)
    ensures |k| == Min(3, |s|)
    ensures k == Lower(s[|s| - |k|..])
  {
    Lower(LastThree(s))
  }

  predicate Rhyme(a: string, b: string)
  {
    RhymeKey(a) == RhymeKey(b)
  }

  /** Lowering is idempotent. */
  lemma LowerIdempotent(s: string)
    ensures Lower(Lower(s)) == Lower(s)
  {
  }

  /** Rhyme keys ignore ASCII case: lowering a word first changes nothing. */
  lemma RhymeKeyIgnoresCase(s: string)
    ensures RhymeKey(Lower(s)) == RhymeKey(s)
    ensures |RhymeKey(s)| == Min(3, |s|)
  {
    var k := |s| - Min(3, |s|);
    assert LastThree(Lower(s)) == Lower(s)[k..];
    assert LastThree(s) == s[k..];
    assert Lower(s)[k..] == Lower(s[k..]);
    LowerIdempotent(s[k..]);
  }

  /** A word shorter than three characters only rhymes with words of its own
      length: the key keeps the whole word, so lengths must agree. */
  lemma ShortWordsRhymeOnlyAtEqualLength(a: string, b: string)
    requires Rhyme(a, b)
    ensures Min(3, |a|) == Min(3, |b|)
  {
    RhymeKeyIgnoresCase(a);
    RhymeKeyIgnoresCase(b);
  }

  /** The index pairs the nested loops report: positions i < j < |ts| whose
      words rhyme. */
  predicate IsRhymePair(ts: seq<string>, p: (nat, nat))
  {
    p.0 < p.1 < |ts| && Rhyme(ts[p.0], ts[p.1])
  }

  /** The rhyme key of every word, position by position. */
  function Keys(ts: seq<string>): (ks: seq<string>)
    ensures |ks| == |ts|
    ensures forall i :: 0 <= i < |ts| ==> ks[i] == RhymeKey(ts[i])
  {
    seq(|ts|, i requires 0 <= i < |ts| => RhymeKey(ts[i]))
  }

  /** Positions i < j whose keys agree. */
  predicate SameKeyPair<K(==)>(ks: seq<K>, p: (nat, nat))
  {
    p.0 < p.1 < |ks| && ks[p.0] == ks[p.1]
  }

  /** The order in which the nested loops visit index pairs. */
  predicate LexBefore(p: (nat, nat), q: (nat, nat))
  {
    p.0 < q.0 || (p.0 == q.0 && p.1 < q.1)
  }

  /** The inner loop for a fixed first position i: the pairs (i, j) with equal
      keys, for j from `from` up to the end, in increasing j. */
  function InnerPairs<K(==)>(ks: seq<K>, i: nat, from: nat): seq<(nat, nat)>
    requires i < from
    decreases |ks| - from
  {
    if from >= |ks| then []
    else (if ks[i] == ks[from] then [(i, from)] else []) + InnerPairs(ks, i, from + 1)
  }

  /** The outer loop from first position i on: the inner loop's pairs for i,
      followed by those of every later first position. */
  function OuterPairs<K(==)>(ks: seq<K>, i: nat): seq<(nat, nat)>
    decreases |ks| - i
  {
    if i >= |ks| then [] else InnerPairs(ks, i, i + 1) + OuterPairs(ks, i + 1)
  }

  /** The inner loop reports exactly the partners of i from `from` on, in
      increasing order, at most one per remaining position. */
  lemma {:induction false} InnerPairsExact<K>(ks: seq<K>, i: nat, from: nat)
    requires i < from
    decreases |ks| - from
    ensures var ps := InnerPairs(ks, i, from);
      && (forall k :: 0 <= k < |ps| ==> ps[k].0 == i && from <= ps[k].1 && SameKeyPair(ks, ps[k]))
      && (forall j :: from <= j < |ks| && ks[i] == ks[j] ==> (i, j) in ps)
      && (forall a, b :: 0 <= a < b < |ps| ==> ps[a].1 < ps[b].1)
      && |ps| <= (if from <= |ks| then |ks| - from else 0)
  {
    if from < |ks| {
      InnerPairsExact(ks, i, from + 1);
    }
  }

  /** The outer loop from i on reports exactly the equal-key pairs whose first
      position is at least i, in lexicographic order. */
  lemma {:induction false} OuterPairsExact<K>(ks: seq<K>, i: nat)
    decreases |ks| - i
    ensures var ps := OuterPairs(ks, i);
      && (forall k :: 0 <= k < |ps| ==> i <= ps[k].0 && SameKeyPair(ks, ps[k]))
      && (forall p, q :: i <= p < q < |ks| && ks[p] == ks[q] ==> (p, q) in ps)
      && (forall a, b :: 0 <= a < b < |ps| ==> LexBefore(ps[a], ps[b]))
  {
    if i < |ks| {
      var inner := InnerPairs(ks, i, i + 1);
      var rest := OuterPairs(ks, i + 1);
      InnerPairsExact(ks, i, i + 1);
      OuterPairsExact(ks, i + 1);
      assert OuterPairs(ks, i) == inner + rest;
      forall p, q | i <= p < q < |ks| && ks[p] == ks[q]
        ensures (p, q) in inner + rest
      {
        if p == i {
          assert (p, q) in inner;
        } else {
          assert (p, q) in rest;
        }
      }
    }
  }

  /** Every rhyming index pair, exactly once each, in lexicographic order. */
  function RhymeIndexPairs(ts: seq<string>): (ps: seq<(nat, nat)>)
    ensures forall p :: p in ps <==> IsRhymePair(ts, p)
    ensures forall k :: 0 <= k < |ps| ==> IsRhymePair(ts, ps[k])
    ensures forall a, b :: 0 <= a < b < |ps| ==> LexBefore(ps[a], ps[b])
  {
    var ks := Keys(ts);
    OuterPairsExact(ks, 0);
    var ps := OuterPairs(ks, 0);
    assert forall p :: p in ps <==> IsRhymePair(ts, p) by {
      forall p ensures p in ps <==> IsRhymePair(ts, p) {
        if p in ps {
          var k :| 0 <= k < |ps| && ps[k] == p;
          assert SameKeyPair(ks, ps[k]);
        }
      }
    }
    ps
  }

  /** The rhyme pairs as the source reports them: the two words of every
      rhyming index pair, in loop order. */
  function FindRhymePairs(ts: seq<string>): (rs: seq<(string, string)>)
    ensures |rs| == |RhymeIndexPairs(ts)|
    ensures forall k :: 0 <= k < |rs| ==>
      var p := RhymeIndexPairs(ts)[k]; p.0 < p.1 < |ts| && rs[k] == (ts[p.0], ts[p.1])
  {
    var ps := RhymeIndexPairs(ts);
    seq(|ps|, k requires 0 <= k < |ps| => (ts[ps[k].0], ts[ps[k].1]))
  }

  /** At the level of words: every reported pair rhymes, and every two
      rhyming positions i < j contribute their pair of words. */
  lemma FindRhymePairsSoundComplete(ts: seq<string>)
    ensures forall k :: 0 <= k < |FindRhymePairs(ts)| ==>
      Rhyme(FindRhymePairs(ts)[k].0, FindRhymePairs(ts)[k].1)
    ensures forall i, j :: 0 <= i < j < |ts| && Rhyme(ts[i], ts[j]) ==>
      (ts[i], ts[j]) in FindRhymePairs(ts)
  {
    var ps := RhymeIndexPairs(ts);
    var rs := FindRhymePairs(ts);
    forall i, j | 0 <= i < j < |ts| && Rhyme(ts[i], ts[j])
      ensures (ts[i], ts[j]) in rs
    {
      assert IsRhymePair(ts, (i, j));
      var k :| 0 <= k < |ps| && ps[k] == (i, j);
      assert rs[k] == (ts[i], ts[j]);
    }
  }

  /** Repeated identical words always pair with each other, whatever their
      case or length. */
  lemma IdenticalWordsPair(ts: seq<string>, i: nat, j: nat)
    requires i < j < |ts| && ts[i] == ts[j]
    ensures (i, j) in RhymeIndexPairs(ts)
    ensures (ts[i], ts[i]) in FindRhymePairs(ts)
  {
    assert IsRhymePair(ts, (i, j));
    FindRhymePairsSoundComplete(ts);
  }

  /** The reported pairs inherit transitivity from equality of rhyme keys. */
  lemma RhymePairsTransitive(ts: seq<string>, i: nat, j: nat, k: nat)
    requires (i, j) in RhymeIndexPairs(ts) && (j, k) in RhymeIndexPairs(ts)
    ensures (i, k) in RhymeIndexPairs(ts)
  {
    assert IsRhymePair(ts, (i, j)) && IsRhymePair(ts, (j, k));
    assert IsRhymePair(ts, (i, k));
  }

  lemma TriangleStep(m: int)
    ensures 2 * (m - 1) + (m - 1) * (m - 2) == m * (m - 1)
  {
  }

  lemma {:induction false} InnerPairsLength<K>(ks: seq<K>, i: nat, from: nat)
    requires i < from
    decreases |ks| - from
    ensures |InnerPairs(ks, i, from)| <= if from <= |ks| then |ks| - from else 0
  {
    if from < |ks| {
      InnerPairsLength(ks, i, from + 1);
    }
  }

  lemma {:induction false} OuterPairsCount<K>(ks: seq<K>, i: nat)
    requires i <= |ks|
    decreases |ks| - i
    ensures 2 * |OuterPairs(ks, i)| <= (|ks| - i) * (|ks| - i - 1)
  {
    if i < |ks| {
      var m := |ks| - i;
      OuterPairsCount(ks, i + 1);
      InnerPairsLength(ks, i, i + 1);
      assert |OuterPairs(ks, i)| == |InnerPairs(ks, i, i + 1)| + |OuterPairs(ks, i + 1)|;
      assert (|ks| - (i + 1)) * (|ks| - (i + 1) - 1) == (m - 1) * (m - 2);
      TriangleStep(m);
    }
  }

  /** At most n(n-1)/2 pairs are reported for n words. */
  lemma RhymePairCountBound(ts: seq<string>)
    ensures 2 * |FindRhymePairs(ts)| <= |ts| * (|ts| - 1)
  {
    assert |FindRhymePairs(ts)| == |OuterPairs(Keys(ts), 0)|;
    OuterPairsCount(Keys(ts), 0);
  }

  predicate AllRhyme(ts: seq<string>)
  {
    forall i, j :: 0 <= i < |ts| && 0 <= j < |ts| ==> Rhyme(ts[i], ts[j])
  }

  predicate AllSame<K(==)>(ks: seq<K>)
  {
    forall i, j :: 0 <= i < |ks| && 0 <= j < |ks| ==> ks[i] == ks[j]
  }

  lemma {:induction false} InnerPairsAllSame<K>(ks: seq<K>, i: nat, from: nat)
    requires i < from && AllSame(ks)
    decreases |ks| - from
    ensures |InnerPairs(ks, i, from)| == if from <= |ks| then |ks| - from else 0
  {
    if from < |ks| {
      InnerPairsAllSame(ks, i, from + 1);
    }
  }

  lemma {:induction false} OuterPairsAllSame<K>(ks: seq<K>, i: nat)
    requires i <= |ks| && AllSame(ks)
    decreases |ks| - i
    ensures 2 * |OuterPairs(ks, i)| == (|ks| - i) * (|ks| - i - 1)
  {
    if i < |ks| {
      var m := |ks| - i;
      OuterPairsAllSame(ks, i + 1);
      InnerPairsAllSame(ks, i, i + 1);
      assert |OuterPairs(ks, i)| == |InnerPairs(ks, i, i + 1)| + |OuterPairs(ks, i + 1)|;
      assert (|ks| - (i + 1)) * (|ks| - (i + 1) - 1) == (m - 1) * (m - 2);
      TriangleStep(m);
    }
  }

  /** When every word shares one rhyme key the bound is reached: n words give
      n(n-1)/2 pairs. */
  lemma AllRhymingPairCount(ts: seq<string>)
    requires AllRhyme(ts)
    ensures 2 * |FindRhymePairs(ts)| == |ts| * (|ts| - 1)
  {
    var ks := Keys(ts);
    assert AllSame(ks);
    assert |FindRhymePairs(ts)| == |OuterPairs(ks, 0)|;
    OuterPairsAllSame(ks, 0);
  }

  lemma FlowGlowDogKeys()
    ensures RhymeKey("flow") == "low" && RhymeKey("glow") == "low"
    ensures RhymeKey("dog") == "dog"
  {
    assert LastThree("flow") == "low";
    assert LastThree("glow") == "low";
    assert LastThree("dog") == "dog";
    assert Lower("low") == "low";
    assert Lower("dog") == "dog";
  }

  /** "flow" and "glow" rhyme on "low"; "dog" rhymes with neither. */
  lemma FlowGlowDogPairs()
    ensures FindRhymePairs(["flow", "glow", "dog"]) == [("flow", "glow")]
  {
    var ts := ["flow", "glow", "dog"];
    FlowGlowDogKeys();
    var ks := Keys(ts);
    assert ks == ["low", "low", "dog"];
    assert InnerPairs(ks, 0, 3) == [] && InnerPairs(ks, 1, 3) == [];
    assert InnerPairs(ks, 0, 2) == [];
    assert InnerPairs(ks, 0, 1) == [(0, 1)];
    assert InnerPairs(ks, 1, 2) == [];
    assert OuterPairs(ks, 3) == [];
    assert OuterPairs(ks, 2) == InnerPairs(ks, 2, 3) + OuterPairs(ks, 3) == [];
    assert OuterPairs(ks, 1) == InnerPairs(ks, 1, 2) + OuterPairs(ks, 2) == [];
    assert OuterPairs(ks, 0) == InnerPairs(ks, 0, 1) + OuterPairs(ks, 1) == [(0, 1)];
  }
}
