/** The inference engine of liblangid.c: a language identifier owning a model and the two
    scratch sparse sets, with `text_to_fv`, `fv_to_logprob`, `logprob_to_prob`,
    `prob_to_pred_idx`, `classify` and `rank`. */
module LibLangId {
  import opened Tallies
  import opened SparseSets
  import opened LangModel
  import opened Extraction
  import opened Scoring

  /** The log-posteriors `classify` and `rank` compute for `text`. */
  function Posterior(m: Model, text: seq<Byte>): (r: seq<real>)
    requires m.Valid()
    ensures |r| == m.numLangs
  {
    LogProb(m, FeatureTally(m, StateTally(m, text)))
  }

  /** The probabilities `classify` and `rank` compute for `text`. */
  function Probabilities(m: Model, text: seq<Byte>, exp: real -> real): (r: seq<real>)
    requires m.Valid() && forall x :: exp(x) > 0.0
    ensures |r| == m.numLangs
  {
    Softmax(Posterior(m, text), exp)
  }

  class Identifier {
    const model: Model
    /** Scratch set of visited DFA states, sized for `numStates`. */
    const sv: SparseSet
    /** Scratch set of extracted features, sized for `numFeats`. */
    const fv: SparseSet

    ghost predicate Valid()
      reads this, sv.Repr(), fv.Repr()
    {
      && model.Valid()
      && sv.Valid() && fv.Valid()
      && sv.capacity == model.numStates && fv.capacity == model.numFeats
      && sv.Repr() !! fv.Repr()
    }

    /** The wiring of `get_default_identifier` (or of a successful `load_identifier`): the
        model plus two fresh sets sized to it. */
    constructor (m: Model)
      requires m.Valid()
      ensures Valid() && model == m
      ensures fresh(sv.Repr()) && fresh(fv.Repr())
    {
      model := m;
      sv := new SparseSet(m.numStates);
      fv := new SparseSet(m.numFeats);
    }

    /** `text_to_fv`: clear both sets, run the DFA over the text adding each entered state with
        delta 1, then add every feature of each visited state's output slice with that state's
        count. The result depends only on the model and the text. */
    method TextToFv(text: seq<Byte>)
      requires Valid()
      modifies sv.Repr(), fv.Repr()
      ensures Valid()
      ensures sv.Model() == StateTally(model, text)
      ensures fv.Model() == FeatureTally(model, sv.Model())
    {
      sv.Clear();
      fv.Clear();

      Scan(model, sv, text);
      ExpandInto(model, sv, fv);
    }

    /** `fv_to_logprob`: start from the prior, then for each member of the feature set add its
        count times its row of the likelihood table. */
    method FvToLogprob(logprob: array<real>)
      requires Valid() && logprob.Length == model.numLangs
      modifies logprob
      ensures logprob[..] == LogProb(model, fv.Model())
    {
      var i := 0;
      while i < model.numLangs
        invariant 0 <= i <= model.numLangs
        invariant forall k :: 0 <= k < i ==> logprob[k] == model.prior[k]
      {
        logprob[i] := model.prior[i];
        i := i + 1;
      }
      assert logprob[..] == model.prior;

      AddFeatureRows(model, fv, logprob);
    }

    /** The steps `classify` and `rank` share: `text_to_fv`, then `fv_to_logprob` and
        `logprob_to_prob` into a fresh array of `numLangs` doubles. */
    method TextToProb(text: seq<Byte>, exp: real -> real) returns (prob: array<real>)
      requires Valid()
      requires forall x :: exp(x) > 0.0
      modifies sv.Repr(), fv.Repr()
      ensures Valid() && fresh(prob)
      ensures prob[..] == Probabilities(model, text, exp)
      ensures sv.Model() == StateTally(model, text)
      ensures fv.Model() == FeatureTally(model, sv.Model())
    {
      TextToFv(text);
      prob := new real[model.numLangs];
      FvToLogprob(prob);
      LogprobToProb(prob, exp);
    }

    /** `classify`: the label and probability of the first most probable language. */
    method Classify(text: seq<Byte>, exp: real -> real) returns (pred: LanguageConfidence)
      requires Valid() && model.numLangs > 0
      requires forall x :: exp(x) > 0.0
      modifies sv.Repr(), fv.Repr()
      ensures Valid()
      ensures sv.Model() == StateTally(model, text)
      ensures fv.Model() == FeatureTally(model, sv.Model())
      ensures var p := Probabilities(model, text, exp);
        pred == LanguageConfidence(model.classes[ArgMax(p)], p[ArgMax(p)])
    {
      var prob := TextToProb(text, exp);
      var predIdx := PredIdx(prob, model.numLangs);
      assert prob[..model.numLangs] == prob[..];
      FirstMaxUnique(prob[..], predIdx, ArgMax(prob[..]));
      pred := LanguageConfidence(model.classes[predIdx], prob[predIdx]);
    }

    /** `rank`: every `(label, probability)` pair, sorted by non-increasing probability. */
    method Rank(text: seq<Byte>, exp: real -> real, out: array<LanguageConfidence>)
      requires Valid() && out.Length == model.numLangs
      requires forall x :: exp(x) > 0.0
      modifies sv.Repr(), fv.Repr(), out
      ensures Valid()
      ensures sv.Model() == StateTally(model, text)
      ensures fv.Model() == FeatureTally(model, sv.Model())
      ensures Descending(out[..])
      ensures multiset(out[..]) == multiset(Pairs(model.classes, Probabilities(model, text, exp)))
    {
      var prob := TextToProb(text, exp);
      FillPairs(model.classes, prob, out);
      SortDescending(out);
    }
  }

  /** The scanning loop of `text_to_fv`: run the DFA from state 0 over the text, adding each
      entered state to the state set with delta 1. */
  method Scan(m: Model, sv: SparseSet, text: seq<Byte>)
    requires m.Valid() && sv.Valid() && sv.capacity == m.numStates && sv.Model() == Empty
    modifies sv.Repr()
    ensures sv.Valid() && sv.Model() == StateTally(m, text)
  {
    var s: nat := 0;
    var i := 0;
    while i < |text|
      invariant 0 <= i <= |text|
      invariant sv.Valid()
      invariant s == StateAfter(m, text[..i])
      invariant sv.Model() == Visited(m, Trace(m, text[..i]))
    {
      ghost var before := Trace(m, text[..i]);
      assert text[..i + 1][..i] == text[..i];
      s := m.nextMove[s][text[i]];
      sv.Add(s, 1);
      ghost var after := Trace(m, text[..i + 1]);
      assert after == before + [s];
      assert after[..|after| - 1] == before;
      i := i + 1;
    }
    assert text[..i] == text;
  }

  /** The conversion loop of `text_to_fv`: for each member of the state set, in order, add
      every feature of its output slice to the feature set with the member's count. */
  method ExpandInto(m: Model, sv: SparseSet, fv: SparseSet)
    requires m.Valid() && sv.Valid() && fv.Valid() && sv.Repr() !! fv.Repr()
    requires sv.capacity == m.numStates && fv.capacity == m.numFeats && fv.Model() == Empty
    modifies fv.Repr()
    ensures fv.Valid() && fv.Model() == FeatureTally(m, sv.Model())
  {
    ghost var states := sv.Model();
    var i := 0;
    while i < sv.members
      invariant 0 <= i <= sv.members
      invariant fv.Valid() && sv.Model() == states
      invariant fv.Model() == Expand(m, states, i)
    {
      var st := sv.dense[i];
      var c := sv.counts[i];
      assert st == states.ids[i] && c == states.counts[i];
      AddOutputs(m, fv, st, c);
      i := i + 1;
    }
  }

  /** The inner loop of `text_to_fv`: add every feature of state `st`'s output slice to the
      feature set with delta `c`. */
  method AddOutputs(m: Model, fv: SparseSet, st: nat, c: nat)
    requires m.Valid() && fv.Valid() && fv.capacity == m.numFeats && st < m.numStates
    modifies fv.Repr()
    ensures fv.Valid() && fv.Model() == AddAll(old(fv.Model()), Outputs(m, st), c)
  {
    ghost var feats := Outputs(m, st);
    ghost var start := fv.Model();
    var j := 0;
    while j < m.outputCount[st]
      invariant 0 <= j <= m.outputCount[st]
      invariant fv.Valid()
      invariant fv.Model() == AddAll(start, feats[..j], c)
    {
      ghost var acc := AddAll(start, feats[..j], c);
      var f := m.output[m.outputStart[st] + j];
      assert feats[..j + 1][..j] == feats[..j] && feats[..j + 1][j] == f;
      assert AddAll(start, feats[..j + 1], c) == Tallies.Add(acc, f, c);
      fv.Add(f, c);
      j := j + 1;
    }
    assert feats[..j] == feats;
  }

  /** The outer loop of `fv_to_logprob`: for each member of the feature set, in order, add
      its count times its likelihood row. */
  method AddFeatureRows(m: Model, fv: SparseSet, logprob: array<real>)
    requires m.ClassifierValid() && fv.Valid() && fv.capacity == m.numFeats
    requires logprob.Length == m.numLangs && logprob[..] == m.prior
    modifies logprob
    ensures logprob[..] == LogProb(m, fv.Model())
  {
    ghost var feats := fv.Model();
    var i := 0;
    while i < fv.members
      invariant 0 <= i <= fv.members
      invariant logprob[..] == Scores(m, feats, i)
    {
      var f := fv.dense[i];
      var c := fv.counts[i] as real;
      assert f == feats.ids[i] && c == feats.counts[i] as real;
      RowInRange(f, m.numFeats, m.numLangs);
      var row: nat := f * m.numLangs;
      assert m.likelihood[row..row + logprob.Length] == Row(m, f);
      AddRow(logprob, m.likelihood, row, c);
      i := i + 1;
    }
  }

  /** The inner loop of `fv_to_logprob`: add `c` times the likelihood row starting at `row`
      to every language's log-probability. */
  method AddRow(logprob: array<real>, likelihood: seq<real>, row: nat, c: real)
    requires row + logprob.Length <= |likelihood|
    modifies logprob
    ensures logprob[..] == AddScaled(old(logprob[..]), likelihood[row..row + logprob.Length], c)
  {
    ghost var acc := logprob[..];
    ghost var r := likelihood[row..row + logprob.Length];
    var j := 0;
    while j < logprob.Length
      invariant 0 <= j <= logprob.Length
      invariant forall k :: 0 <= k < j ==> logprob[k] == acc[k] + c * r[k]
      invariant forall k :: j <= k < logprob.Length ==> logprob[k] == acc[k]
    {
      logprob[j] := logprob[j] + c * likelihood[row + j];
      j := j + 1;
    }
    AddScaledPointwise(acc, r, c, logprob[..]);
  }

  /** The fill loop of `rank`: slot `i` gets the label and probability of language `i`. */
  method FillPairs(classes: seq<string>, prob: array<real>, out: array<LanguageConfidence>)
    requires |classes| == prob.Length == out.Length
    modifies out
    ensures out[..] == Pairs(classes, prob[..])
  {
    var i := 0;
    while i < out.Length
      invariant 0 <= i <= out.Length
      invariant forall k :: 0 <= k < i ==> out[k] == LanguageConfidence(classes[k], prob[k])
    {
      out[i] := LanguageConfidence(classes[i], prob[i]);
      i := i + 1;
    }
  }

  /** `logprob_to_prob`: find the maximum (starting from `-DBL_MAX`), replace each value by
      `exp(value - max)` while summing, then divide each by the sum. */
  method LogprobToProb(logprob: array<real>, exp: real -> real)
    requires forall x :: exp(x) > 0.0
    modifies logprob
    ensures logprob[..] == Softmax(old(logprob[..]), exp)
  {
    var maxLogprob := MaxOf(logprob);
    var sum := ExpShiftInPlace(logprob, maxLogprob, exp);
    if logprob.Length > 0 {
      PositiveSum(logprob[..]);
    }
    DivideInPlace(logprob, sum);
  }

  /** The first loop of `logprob_to_prob`: the running maximum from `-DBL_MAX`. */
  method MaxOf(logprob: array<real>) returns (maxLogprob: real)
    ensures maxLogprob == MaxLogProb(logprob[..])
  {
    maxLogprob := NegDblMax;
    var i := 0;
    while i < logprob.Length
      invariant 0 <= i <= logprob.Length
      invariant maxLogprob == MaxLogProb(logprob[..i])
    {
      assert logprob[..i + 1][..i] == logprob[..i];
      if logprob[i] > maxLogprob {
        maxLogprob := logprob[i];
      }
      i := i + 1;
    }
    assert logprob[..i] == logprob[..];
  }

  /** The second loop of `logprob_to_prob`: replace each value `v` by `exp(v - mx)` and sum
      the results. */
  method ExpShiftInPlace(logprob: array<real>, mx: real, exp: real -> real) returns (sum: real)
    requires forall x :: exp(x) > 0.0
    modifies logprob
    ensures logprob[..] == ExpShift(old(logprob[..]), mx, exp)
    ensures sum == RealSum(logprob[..])
  {
    ghost var lp := logprob[..];
    sum := 0.0;
    var i := 0;
    while i < logprob.Length
      invariant 0 <= i <= logprob.Length
      invariant forall k :: 0 <= k < i ==> logprob[k] == exp(lp[k] - mx)
      invariant forall k :: i <= k < logprob.Length ==> logprob[k] == lp[k]
      invariant sum == RealSum(logprob[..i])
    {
      ghost var done := logprob[..i];
      logprob[i] := exp(logprob[i] - mx);
      sum := sum + logprob[i];
      assert logprob[..i + 1] == done + [logprob[i]];
      i := i + 1;
    }
    assert logprob[..i] == logprob[..];
    ExpShiftPointwise(lp, mx, exp, logprob[..]);
  }

  /** The third loop of `logprob_to_prob`: divide each value by `sum`. */
  method DivideInPlace(logprob: array<real>, sum: real)
    requires logprob.Length > 0 ==> sum != 0.0
    modifies logprob
    ensures logprob.Length > 0 ==> logprob[..] == DivideAll(old(logprob[..]), sum)
    ensures logprob.Length == 0 ==> logprob[..] == []
  {
    ghost var e := logprob[..];
    var i := 0;
    while i < logprob.Length
      invariant 0 <= i <= logprob.Length
      invariant forall k :: 0 <= k < i ==> logprob[k] == e[k] / sum
      invariant forall k :: i <= k < logprob.Length ==> logprob[k] == e[k]
    {
      logprob[i] := logprob[i] / sum;
      i := i + 1;
    }
    if logprob.Length > 0 {
      DivideAllPointwise(e, sum, logprob[..]);
    }
  }

  /** `prob_to_pred_idx`: scan from index 1, moving to `i` only when `prob[i]` is strictly
      larger, so the first of several equal maxima wins. An empty range yields 0. */
  method PredIdx(prob: array<real>, size: nat) returns (m: nat)
    requires size <= prob.Length
    ensures size == 0 ==> m == 0
    ensures size > 0 ==> IsFirstMax(prob[..size], m)
  {
    m := 0;
    var i := 1;
    while i < size
      invariant size > 0 ==> 1 <= i <= size && IsFirstMax(prob[..i], m)
      invariant size == 0 ==> m == 0
    {
      if prob[m] < prob[i] {
        m := i;
      }
      i := i + 1;
    }
  }

  method Swap(a: array<LanguageConfidence>, i: nat, j: nat)
    requires i < a.Length && j < a.Length
    modifies a
    ensures a[i] == old(a[j]) && a[j] == old(a[i])
    ensures forall k :: 0 <= k < a.Length && k != i && k != j ==> a[k] == old(a[k])
    ensures multiset(a[..]) == old(multiset(a[..]))
  {
    a[i], a[j] := a[j], a[i];
  }

  /** The `qsort` call of `rank` with `compare_language_confidence`: afterwards the array is a
      permutation of what it held, with confidences non-increasing. The order of equal
      confidences is not promised. */
  method SortDescending(a: array<LanguageConfidence>)
    modifies a
    ensures Descending(a[..])
    ensures multiset(a[..]) == old(multiset(a[..]))
  {
    var i := 0;
    while i < a.Length
      invariant 0 <= i <= a.Length
      invariant forall x, y :: 0 <= x < y < i ==> a[x].confidence >= a[y].confidence
      invariant multiset(a[..]) == old(multiset(a[..]))
    {
      var j := i;
      while j > 0 && Compare(a[j - 1], a[j]) > 0
        invariant 0 <= j <= i
        invariant forall x, y :: 0 <= x < y <= i && x != j && y != j ==> a[x].confidence >= a[y].confidence
        invariant forall y :: j < y <= i ==> a[j].confidence > a[y].confidence
        invariant multiset(a[..]) == old(multiset(a[..]))
      {
        Swap(a, j - 1, j);
        j := j - 1;
      }
      i := i + 1;
    }
  }
}
