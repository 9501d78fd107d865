/** What the classifier half of liblangid.c computes: the Naive Bayes log-posterior of each
    language, its max-shifted softmax, the first arg-max, and the ordering used by `rank`.
    Doubles are modelled as reals, and the exponential as a function parameter `exp`. */
module Scoring {
  import opened Tallies
  import opened LangModel

  /** The whole likelihood row of a feature lies inside the table. */
  lemma RowInRange(f: nat, numFeats: nat, numLangs: nat)
    requires f < numFeats
    ensures 0 <= f * numLangs && f * numLangs + numLangs <= numFeats * numLangs
  {
    MulMonotone(f + 1, numFeats, numLangs);
  }

  lemma MulMonotone(a: nat, b: nat, c: nat)
    requires a <= b
    ensures a * c <= b * c
  {
  }

  /** The likelihood row of feature `f`: its log likelihood for each language. */
  function Row(m: Model, f: nat): (r: seq<real>)
    requires m.ClassifierValid() && f < m.numFeats
    ensures |r| == m.numLangs
  {
    RowInRange(f, m.numFeats, m.numLangs);
    m.likelihood[f * m.numLangs..f * m.numLangs + m.numLangs]
  }

  lemma RowAt(m: Model, f: nat, j: nat)
    requires m.ClassifierValid() && f < m.numFeats && j < m.numLangs
    ensures f * m.numLangs + j < |m.likelihood| && Row(m, f)[j] == m.likelihood[f * m.numLangs + j]
  {
    var row := f * m.numLangs;
    RowInRange(f, m.numFeats, m.numLangs);
    SliceAt(m.likelihood, row, row + m.numLangs, j);
  }

  lemma SliceAt(s: seq<real>, lo: nat, hi: nat, j: nat)
    requires lo <= hi <= |s| && j < hi - lo
    ensures lo + j < |s| && s[lo..hi][j] == s[lo + j]
  {
  }

  /** Log-posterior of language `j` after the first `k` members of the feature set: the prior
      plus, per member, its count times the feature's log likelihood for `j`. */
  function Score(m: Model, fv: Tally, k: nat, j: nat): real
    requires m.ClassifierValid() && |fv.ids| == |fv.counts| && Below(fv.ids, m.numFeats)
    requires k <= |fv.ids| && j < m.numLangs
  {
    if k == 0 then m.prior[j]
    else Score(m, fv, k - 1, j) + (fv.counts[k - 1] as real) * Row(m, fv.ids[k - 1])[j]
  }

  /** Each value of `acc` plus `c` times the matching value of `row`. The pointwise ensures
      and the two lemmas below only hand the comprehension to callers in the shapes they use,
      which keeps the solver from unfolding it next to real multiplications. */
  function AddScaled(acc: seq<real>, row: seq<real>, c: real): (r: seq<real>)
    requires |acc| == |row|
    ensures |r| == |acc|
    ensures forall j :: 0 <= j < |acc| ==> r[j] == acc[j] + c * row[j]
  {
    seq(|acc|, j requires 0 <= j < |acc| => acc[j] + c * row[j])
  }

  lemma AddScaledStep(acc: seq<real>, row: seq<real>, c: real, j: nat, s: real)
    requires |acc| == |row| && j < |acc| && acc[j] == s
    ensures AddScaled(acc, row, c)[j] == s + c * row[j]
  {
  }

  lemma AddScaledPointwise(acc: seq<real>, row: seq<real>, c: real, r: seq<real>)
    requires |acc| == |row| == |r|
    requires forall j :: 0 <= j < |r| ==> r[j] == acc[j] + c * row[j]
    ensures r == AddScaled(acc, row, c)
  {
  }

  /** The log-posteriors after the first `k` members of the feature set, row by row as
      `fv_to_logprob` accumulates them: the prior, then each member's likelihood row scaled by
      its count. */
  function Scores(m: Model, fv: Tally, k: nat): (r: seq<real>)
    requires m.ClassifierValid() && |fv.ids| == |fv.counts| && Below(fv.ids, m.numFeats)
    requires k <= |fv.ids|
    ensures |r| == m.numLangs
  {
    if k == 0 then m.prior
    else AddScaled(Scores(m, fv, k - 1), Row(m, fv.ids[k - 1]), fv.counts[k - 1] as real)
  }

  /** `logprob` after `fv_to_logprob`. */
  function LogProb(m: Model, fv: Tally): (r: seq<real>)
    requires m.ClassifierValid() && |fv.ids| == |fv.counts| && Below(fv.ids, m.numFeats)
    ensures |r| == m.numLangs
  {
    Scores(m, fv, |fv.ids|)
  }

  /** Accumulating row by row gives, for every language, the prior plus the sum over the
      members of count times likelihood, with every index inside the table. */
  lemma {:induction false} ScoresAt(m: Model, fv: Tally, k: nat, j: nat)
    requires m.ClassifierValid() && |fv.ids| == |fv.counts| && Below(fv.ids, m.numFeats)
    requires k <= |fv.ids| && j < m.numLangs
    ensures Scores(m, fv, k)[j] == Score(m, fv, k, j)
  {
    if k > 0 {
      ScoresAt(m, fv, k - 1, j);
      var prev, row, c := Scores(m, fv, k - 1), Row(m, fv.ids[k - 1]), fv.counts[k - 1] as real;
      assert Scores(m, fv, k) == AddScaled(prev, row, c);
      AddScaledStep(prev, row, c, j, Score(m, fv, k - 1, j));
    }
  }

  /** The log-posterior of each language is its prior plus the count-weighted likelihoods of
      the features present. */
  lemma LogProbAt(m: Model, fv: Tally, j: nat)
    requires m.ClassifierValid() && |fv.ids| == |fv.counts| && Below(fv.ids, m.numFeats)
    requires j < m.numLangs
    ensures LogProb(m, fv)[j] == Score(m, fv, |fv.ids|, j)
  {
    ScoresAt(m, fv, |fv.ids|, j);
  }

  /** With no features present the log-posterior is the prior. */
  lemma EmptyLogProb(m: Model)
    requires m.ClassifierValid()
    ensures LogProb(m, Empty) == m.prior
  {
  }

  /** A feature present with count `c` adds `c` times its likelihood row. */
  lemma SingleFeatureLogProb(m: Model, f: nat, c: nat, j: nat)
    requires m.ClassifierValid() && f < m.numFeats && j < m.numLangs
    ensures f * m.numLangs + j < |m.likelihood|
      && LogProb(m, Tally([f], [c]))[j] == m.prior[j] + (c as real) * m.likelihood[f * m.numLangs + j]
  {
    RowAt(m, f, j);
    var fv := Tally([f], [c]);
    assert Scores(m, fv, 1) == AddScaled(m.prior, Row(m, f), c as real);
  }

  /** `-DBL_MAX`, the starting value of the maximum search: the exact value of the largest
      finite double, (2^53 - 1) * 2^971, negated. */
  const NegDblMax: real := -179769313486231570814527423731704356798070567525844996598917476803157260780028538760589558632766878171540458953514382464234321326889464182768467546703537516986049910576551282076245490090389328944075868508455133942304583236903222948165808559332123348274797826204144723168738177180919299881250404026184124858368.0

  /** The maximum search of `logprob_to_prob`: start at `-DBL_MAX`, take a value when it is
      strictly larger. */
  function MaxLogProb(s: seq<real>): real {
    if s == [] then NegDblMax
    else
      var prev := MaxLogProb(s[..|s| - 1]);
      if s[|s| - 1] > prev then s[|s| - 1] else prev
  }

  /** The maximum bounds every element, is never below `-DBL_MAX`, and is either `-DBL_MAX`
      or an element. */
  lemma {:induction false} MaxLogProbFacts(s: seq<real>)
    ensures forall i :: 0 <= i < |s| ==> s[i] <= MaxLogProb(s)
    ensures MaxLogProb(s) >= NegDblMax
    ensures MaxLogProb(s) == NegDblMax || MaxLogProb(s) in s
    decreases |s|
  {
    if s != [] {
      var init := s[..|s| - 1];
      MaxLogProbFacts(init);
      assert s == init + [s[|s| - 1]];
    }
  }

  function RealSum(s: seq<real>): real {
    if s == [] then 0.0 else RealSum(s[..|s| - 1]) + s[|s| - 1]
  }

  predicate Positive(s: seq<real>) {
    forall i :: 0 <= i < |s| ==> s[i] > 0.0
  }

  lemma {:induction false} PositiveSum(s: seq<real>)
    requires Positive(s)
    ensures s != [] ==> RealSum(s) > 0.0
    ensures forall i :: 0 <= i < |s| ==> s[i] <= RealSum(s)
    decreases |s|
  {
    if s != [] {
      var init := s[..|s| - 1];
      PositiveSum(init);
    }
  }

  /** `exp(v - mx)` for every value `v`, left to right. */
  function ExpShift(s: seq<real>, mx: real, exp: real -> real): (e: seq<real>)
    requires forall x :: exp(x) > 0.0
    ensures |e| == |s| && Positive(e)
    decreases |s|
  {
    if s == [] then [] else ExpShift(s[..|s| - 1], mx, exp) + [exp(s[|s| - 1] - mx)]
  }

  lemma {:induction false} ExpShiftAt(s: seq<real>, mx: real, exp: real -> real, k: nat)
    requires forall x :: exp(x) > 0.0
    requires k < |s|
    ensures ExpShift(s, mx, exp)[k] == exp(s[k] - mx)
    decreases |s|
  {
    if k < |s| - 1 {
      ExpShiftAt(s[..|s| - 1], mx, exp, k);
    }
  }

  /** A sequence that agrees with `exp(v - mx)` at every position is the shifted sequence. */
  lemma ExpShiftPointwise(s: seq<real>, mx: real, exp: real -> real, e: seq<real>)
    requires forall x :: exp(x) > 0.0
    requires |e| == |s| && forall k :: 0 <= k < |s| ==> e[k] == exp(s[k] - mx)
    ensures e == ExpShift(s, mx, exp)
  {
    forall k | 0 <= k < |s| ensures e[k] == ExpShift(s, mx, exp)[k] {
      ExpShiftAt(s, mx, exp, k);
    }
  }

  /** `exp(logprob[i] - max)` for every language. */
  function Shifted(lp: seq<real>, exp: real -> real): (e: seq<real>)
    requires forall x :: exp(x) > 0.0
    ensures |e| == |lp| && Positive(e)
  {
    ExpShift(lp, MaxLogProb(lp), exp)
  }

  /** Every value divided by `d`, left to right. */
  function DivideAll(e: seq<real>, d: real): (q: seq<real>)
    requires d != 0.0
    ensures |q| == |e|
    decreases |e|
  {
    if e == [] then [] else DivideAll(e[..|e| - 1], d) + [e[|e| - 1] / d]
  }

  lemma {:induction false} DivideAllAt(e: seq<real>, d: real, k: nat)
    requires d != 0.0 && k < |e|
    ensures DivideAll(e, d)[k] == e[k] / d
    decreases |e|
  {
    if k < |e| - 1 {
      DivideAllAt(e[..|e| - 1], d, k);
    }
  }

  /** A sequence that agrees with `v / d` at every position is the divided sequence. */
  lemma DivideAllPointwise(e: seq<real>, d: real, q: seq<real>)
    requires d != 0.0
    requires |q| == |e| && forall k :: 0 <= k < |e| ==> q[k] == e[k] / d
    ensures q == DivideAll(e, d)
  {
    forall k | 0 <= k < |e| ensures q[k] == DivideAll(e, d)[k] {
      DivideAllAt(e, d, k);
    }
  }

  /** Each value divided by the sum of all of them. */
  function Normalize(e: seq<real>): (p: seq<real>)
    requires Positive(e)
    ensures |p| == |e|
  {
    if e == [] then []
    else
      PositiveSum(e);
      DivideAll(e, RealSum(e))
  }

  /** `logprob` after `logprob_to_prob`: each shifted exponential divided by their sum. */
  function Softmax(lp: seq<real>, exp: real -> real): (p: seq<real>)
    requires forall x :: exp(x) > 0.0
    ensures |p| == |lp|
  {
    Normalize(Shifted(lp, exp))
  }

  lemma {:induction false} SumDivided(e: seq<real>, d: real)
    requires d != 0.0
    ensures RealSum(DivideAll(e, d)) == RealSum(e) / d
    decreases |e|
  {
    if e != [] {
      var init := e[..|e| - 1];
      SumDivided(init, d);
      assert DivideAll(e, d)[..|e| - 1] == DivideAll(init, d);
    }
  }

  /** Normalizing positive values gives a probability distribution: every value in (0, 1],
      summing to 1. */
  lemma NormalizeIsDistribution(e: seq<real>)
    requires Positive(e) && e != []
    ensures RealSum(Normalize(e)) == 1.0
    ensures forall i :: 0 <= i < |e| ==> 0.0 < Normalize(e)[i] <= 1.0
  {
    PositiveSum(e);
    var d := RealSum(e);
    var q := DivideAll(e, d);
    assert Normalize(e) == q;
    SumDivided(e, d);
    SelfDivide(d);
    forall i | 0 <= i < |e| ensures 0.0 < q[i] <= 1.0 {
      DivideAllAt(e, d, i);
      DivideBounds(e[i], d);
    }
  }

  lemma SelfDivide(d: real)
    requires d > 0.0
    ensures d / d == 1.0
  {
  }

  /** The softmax is a probability distribution. */
  lemma SoftmaxIsDistribution(lp: seq<real>, exp: real -> real)
    requires forall x :: exp(x) > 0.0
    requires lp != []
    ensures RealSum(Softmax(lp, exp)) == 1.0
    ensures forall i :: 0 <= i < |lp| ==> 0.0 < Softmax(lp, exp)[i] <= 1.0
  {
    NormalizeIsDistribution(Shifted(lp, exp));
  }

  lemma DivideBounds(x: real, d: real)
    requires 0.0 < x <= d
    ensures 0.0 < x / d <= 1.0
  {
  }

  /** For an increasing `exp`, the softmax keeps the order of the log-posteriors, so the
      language ranked first is the same before and after normalization. */
  lemma SoftmaxKeepsOrder(lp: seq<real>, exp: real -> real, i: nat, j: nat)
    requires forall x :: exp(x) > 0.0
    requires forall x, y :: x < y ==> exp(x) < exp(y)
    requires i < |lp| && j < |lp|
    ensures lp[i] < lp[j] <==> Softmax(lp, exp)[i] < Softmax(lp, exp)[j]
    ensures lp[i] == lp[j] <==> Softmax(lp, exp)[i] == Softmax(lp, exp)[j]
  {
    var e := Shifted(lp, exp);
    var mx := MaxLogProb(lp);
    PositiveSum(e);
    var d := RealSum(e);
    DivideAllAt(e, d, i);
    DivideAllAt(e, d, j);
    ExpShiftAt(lp, mx, exp, i);
    ExpShiftAt(lp, mx, exp, j);
    if lp[i] < lp[j] {
      assert e[i] < e[j];
    } else if lp[j] < lp[i] {
      assert e[j] < e[i];
    }
    DivideOrder(e[i], e[j], d);
  }

  lemma DivideOrder(x: real, y: real, d: real)
    requires d > 0.0
    ensures x < y <==> x / d < y / d
    ensures x == y <==> x / d == y / d
  {
  }

  /** `k` is where `prob_to_pred_idx` stops: a maximum, and the first one. */
  predicate IsFirstMax(p: seq<real>, k: nat) {
    && k < |p|
    && (forall i :: 0 <= i < |p| ==> p[i] <= p[k])
    && (forall i :: 0 <= i < k ==> p[i] < p[k])
  }

  /** There is only one first maximum. */
  lemma FirstMaxUnique(p: seq<real>, k1: nat, k2: nat)
    requires IsFirstMax(p, k1) && IsFirstMax(p, k2)
    ensures k1 == k2
  {
    var a, b := p[k1], p[k2];
    assert b <= a && a <= b;
    assert k1 < k2 ==> a < b;
    assert k2 < k1 ==> b < a;
  }

  /** The first maximum of a non-empty sequence, scanning from the left and moving only on a
      strictly larger value. */
  function ArgMax(p: seq<real>): (k: nat)
    requires p != []
    ensures IsFirstMax(p, k)
    decreases |p|
  {
    if |p| == 1 then 0
    else
      var k0 := ArgMax(p[..|p| - 1]);
      if p[k0] < p[|p| - 1] then |p| - 1 else k0
  }

  /** A label with its probability. */
  datatype LanguageConfidence = LanguageConfidence(language: string, confidence: real)

  /** `compare_language_confidence`: negative when the first confidence is larger, positive
      when it is smaller, 0 on a tie, so that sorting with it is descending. */
  function Compare(a: LanguageConfidence, b: LanguageConfidence): (r: int)
    ensures r < 0 <==> a.confidence > b.confidence
    ensures r > 0 <==> a.confidence < b.confidence
    ensures r == 0 <==> a.confidence == b.confidence
    ensures -1 <= r <= 1
  {
    (if a.confidence < b.confidence then 1 else 0) - (if a.confidence > b.confidence then 1 else 0)
  }

  /** The comparator is antisymmetric and its "not after" relation is transitive: a total
      preorder, as a sort requires. */
  lemma CompareIsTotalPreorder(a: LanguageConfidence, b: LanguageConfidence, c: LanguageConfidence)
    ensures Compare(a, b) == -Compare(b, a)
    ensures Compare(a, b) <= 0 || Compare(b, a) <= 0
    ensures Compare(a, b) <= 0 && Compare(b, c) <= 0 ==> Compare(a, c) <= 0
  {
  }

  /** Confidences never increase along the sequence. */
  predicate Descending(s: seq<LanguageConfidence>) {
    forall i, j :: 0 <= i < j < |s| ==> s[i].confidence >= s[j].confidence
  }

  /** `(nb_classes[i], prob[i])` for every language, as `rank` fills `out` before sorting. */
  function Pairs(classes: seq<string>, p: seq<real>): (r: seq<LanguageConfidence>)
    requires |classes| == |p|
    ensures |r| == |p|
    ensures forall i :: 0 <= i < |p| ==> r[i] == LanguageConfidence(classes[i], p[i])
  {
    seq(|p|, i requires 0 <= i < |p| => LanguageConfidence(classes[i], p[i]))
  }

  /** The confidences of a sequence of pairs, in order. */
  function Confidences(s: seq<LanguageConfidence>): (r: seq<real>)
    ensures |r| == |s|
  {
    if s == [] then [] else [s[0].confidence] + Confidences(s[1..])
  }

  lemma {:induction false} ConfidencesAt(s: seq<LanguageConfidence>, i: nat)
    requires i < |s|
    ensures Confidences(s)[i] == s[i].confidence
  {
    if i > 0 {
      ConfidencesAt(s[1..], i - 1);
    }
  }

  lemma {:induction false} ConfidencesAppend(u: seq<LanguageConfidence>, v: seq<LanguageConfidence>)
    ensures Confidences(u + v) == Confidences(u) + Confidences(v)
    decreases |u|
  {
    if u == [] {
      assert u + v == v;
    } else {
      assert (u + v)[1..] == u[1..] + v;
      ConfidencesAppend(u[1..], v);
    }
  }

  /** Reordering pairs reorders their confidences the same way. */
  lemma {:induction false} SameConfidences(a: seq<LanguageConfidence>, b: seq<LanguageConfidence>)
    requires multiset(a) == multiset(b)
    ensures multiset(Confidences(a)) == multiset(Confidences(b))
    decreases |a|
  {
    if a != [] {
      var lo, hi := FindIn(a, b);
      SameConfidences(a[1..], lo + hi);
      ConfidencesSplice(lo, a[0], hi);
    }
  }

  /** Where the first element of `a` sits in a permutation `b` of it. */
  lemma FindIn<T>(a: seq<T>, b: seq<T>) returns (lo: seq<T>, hi: seq<T>)
    requires a != [] && multiset(a) == multiset(b)
    ensures b == lo + [a[0]] + hi
    ensures multiset(a[1..]) == multiset(lo + hi)
  {
    assert a[0] in multiset(b);
    var j :| 0 <= j < |b| && b[j] == a[0];
    lo, hi := b[..j], b[j + 1..];
    assert b == lo + [a[0]] + hi;
    assert a == [a[0]] + a[1..];
    MultisetSplice(lo, a[0], hi);
    MultisetCancel(multiset(a[1..]), multiset(lo + hi), a[0]);
  }

  lemma MultisetSplice<T>(lo: seq<T>, x: T, hi: seq<T>)
    ensures multiset(lo + [x] + hi) == multiset(lo + hi) + multiset{x}
  {
  }

  lemma MultisetCancel<T>(m: multiset<T>, n: multiset<T>, x: T)
    requires m + multiset{x} == n + multiset{x}
    ensures m == n
  {
    assert m == m + multiset{x} - multiset{x};
  }

  lemma ConfidencesSplice(lo: seq<LanguageConfidence>, x: LanguageConfidence, hi: seq<LanguageConfidence>)
    ensures multiset(Confidences(lo + [x] + hi))
      == multiset(Confidences(lo + hi)) + multiset{x.confidence}
  {
    ConfidencesAppend(lo + [x], hi);
    ConfidencesAppend(lo, [x]);
    ConfidencesAppend(lo, hi);
    assert Confidences([x]) == [x.confidence];
  }

  /** The confidences of the unsorted pairs are the probabilities themselves. */
  lemma PairsConfidences(classes: seq<string>, p: seq<real>)
    requires |classes| == |p|
    ensures Confidences(Pairs(classes, p)) == p
  {
    forall i | 0 <= i < |p| ensures Confidences(Pairs(classes, p))[i] == p[i] {
      ConfidencesAt(Pairs(classes, p), i);
    }
  }

  /** Whatever order the sort leaves, a ranking carries exactly the probabilities of the
      languages, each as often as it occurs. */
  lemma RankConfidences(classes: seq<string>, p: seq<real>, out: seq<LanguageConfidence>)
    requires |classes| == |p| && multiset(out) == multiset(Pairs(classes, p))
    ensures multiset(Confidences(out)) == multiset(p)
  {
    SameConfidences(out, Pairs(classes, p));
    PairsConfidences(classes, p);
  }

  /** The first entry of a ranking holds the largest confidence, the one `classify` reports. */
  lemma RankHeadIsBest(classes: seq<string>, p: seq<real>, out: seq<LanguageConfidence>, k: nat)
    requires |classes| == |p| && IsFirstMax(p, k)
    requires Descending(out) && multiset(out) == multiset(Pairs(classes, p))
    ensures out != [] && out[0].confidence == p[k]
  {
    var pairs := Pairs(classes, p);
    assert pairs[k] in multiset(pairs);
    assert pairs[k] in out;
    assert |out| == |pairs| by {
      assert |multiset(out)| == |multiset(pairs)|;
    }
    assert out[0] in multiset(pairs);
    var i :| 0 <= i < |pairs| && pairs[i] == out[0];
    var j :| 0 <= j < |out| && out[j] == pairs[k];
  }
}
