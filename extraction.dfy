/** What `text_to_fv` computes, as functions of the model and the text: the run of the DFA
    over the text, the visited-state tally, and the feature tally derived from it. */
module Extraction {
  import opened Tallies
  import opened LangModel

  /** The state the DFA is in after reading `text` from state 0. */
  function StateAfter(m: Model, text: seq<Byte>): (s: nat)
    requires m.Valid()
    ensures s < m.numStates
    decreases |text|
  {
    if text == [] then 0
    else m.nextMove[StateAfter(m, text[..|text| - 1])][text[|text| - 1]]
  }

  /** The states entered while reading `text`, one per byte. */
  function Trace(m: Model, text: seq<Byte>): (r: seq<nat>)
    requires m.Valid()
    ensures |r| == |text| && Below(r, m.numStates)
    decreases |text|
  {
    if text == [] then [] else Trace(m, text[..|text| - 1]) + [StateAfter(m, text)]
  }

  lemma {:induction false} TracePrefix(m: Model, text: seq<Byte>, k: nat)
    requires m.Valid() && k <= |text|
    ensures Trace(m, text[..k]) == Trace(m, text)[..k]
    decreases |text|
  {
    if k < |text| {
      var init := text[..|text| - 1];
      assert init[..k] == text[..k];
      TracePrefix(m, init, k);
    } else {
      assert text[..k] == text;
    }
  }

  /** The trace is the run of the automaton: it starts from state 0, and each state entered is
      the transition of the previous one on the next byte. */
  lemma TraceIsRun(m: Model, text: seq<Byte>, i: nat)
    requires m.Valid() && i < |text|
    ensures var t := Trace(m, text);
      t[i] == m.nextMove[if i == 0 then 0 else t[i - 1]][text[i]]
  {
    TracePrefix(m, text, i + 1);
    var pre := text[..i + 1];
    assert pre[..i] == text[..i];
    if i > 0 {
      TracePrefix(m, text, i);
      assert Trace(m, text)[i - 1] == Trace(m, text[..i])[i - 1];
      assert Trace(m, text[..i]) == Trace(m, text[..i - 1 + 1]);
      var pre2 := text[..i];
      assert pre2[..|pre2| - 1] == text[..i - 1];
      assert Trace(m, text[..i])[i - 1] == StateAfter(m, text[..i]);
    }
  }

  /** The state set after adding each state of `states` with delta 1. */
  function Visited(m: Model, states: seq<nat>): (r: Tally)
    requires m.Valid() && Below(states, m.numStates)
    ensures WellFormed(r) && Below(r.ids, m.numStates)
  {
    AddAllMembers(Empty, states, 1, m.numStates);
    AddAll(Empty, states, 1)
  }

  /** `sv` after the scanning loop: every entered state added with delta 1. */
  function StateTally(m: Model, text: seq<Byte>): (r: Tally)
    requires m.Valid()
    ensures WellFormed(r) && Below(r.ids, m.numStates)
  {
    Visited(m, Trace(m, text))
  }

  /** The visited-state set holds each state as often as the run entered it, its members are
      exactly the states entered, they are distinct and below `numStates`, and the counts add
      up to the length of the text. */
  lemma StateTallyFacts(m: Model, text: seq<Byte>)
    requires m.Valid()
    ensures forall q :: q in StateTally(m, text).ids <==> q in Trace(m, text)
    ensures forall q :: Count(StateTally(m, text), q) == Occurrences(Trace(m, text), q)
    ensures Sum(StateTally(m, text).counts) == |text|
  {
    var tr := Trace(m, text);
    AddAllMembers(Empty, tr, 1, m.numStates);
    AddAllSum(Empty, tr, 1);
    forall q ensures Count(StateTally(m, text), q) == Occurrences(tr, q) {
      AddAllCount(Empty, tr, 1, q);
    }
  }

  /** The features entering state `st` completes: its slice of the flat output table. */
  function Outputs(m: Model, st: nat): (r: seq<nat>)
    requires m.Valid() && st < m.numStates
    ensures |r| == m.outputCount[st] && Below(r, m.numFeats)
  {
    m.output[m.outputStart[st]..m.outputStart[st] + m.outputCount[st]]
  }

  /** The feature set after the first `k` members of the state set have been expanded: each
      feature of a member's slice added with that member's count. */
  function Expand(m: Model, sv: Tally, k: nat): (r: Tally)
    requires m.Valid() && WellFormed(sv) && Below(sv.ids, m.numStates) && k <= |sv.ids|
    ensures WellFormed(r) && Below(r.ids, m.numFeats)
  {
    if k == 0 then Empty
    else
      var prev := Expand(m, sv, k - 1);
      AddAllMembers(prev, Outputs(m, sv.ids[k - 1]), sv.counts[k - 1], m.numFeats);
      AddAll(prev, Outputs(m, sv.ids[k - 1]), sv.counts[k - 1])
  }

  /** `fv` after the conversion loop. */
  function FeatureTally(m: Model, sv: Tally): Tally
    requires m.Valid() && WellFormed(sv) && Below(sv.ids, m.numStates)
  {
    Expand(m, sv, |sv.ids|)
  }

  /** Sum over the first `k` members `q` of the state set of `count(q)` times the number of
      times `f` occurs in `q`'s output slice. */
  function Contribution(m: Model, sv: Tally, k: nat, f: nat): nat
    requires m.Valid() && |sv.ids| == |sv.counts| && Below(sv.ids, m.numStates) && k <= |sv.ids|
  {
    if k == 0 then 0
    else Contribution(m, sv, k - 1, f) + sv.counts[k - 1] * Occurrences(Outputs(m, sv.ids[k - 1]), f)
  }

  /** The count of each feature is the visit-weighted number of times the visited states
      emit it. */
  lemma {:induction false} ExpandCount(m: Model, sv: Tally, k: nat, f: nat)
    requires m.Valid() && WellFormed(sv) && Below(sv.ids, m.numStates) && k <= |sv.ids|
    ensures Count(Expand(m, sv, k), f) == Contribution(m, sv, k, f)
  {
    if k > 0 {
      ExpandCount(m, sv, k - 1, f);
      var prev, out, c := Expand(m, sv, k - 1), Outputs(m, sv.ids[k - 1]), sv.counts[k - 1];
      assert Expand(m, sv, k) == AddAll(prev, out, c);
      assert Contribution(m, sv, k, f) == Contribution(m, sv, k - 1, f) + c * Occurrences(out, f);
      AddAllCount(prev, out, c, f);
    }
  }

  /** Sum, over the positions of a run, of how often the state entered there emits `f`. */
  function Emitted(m: Model, states: seq<nat>, f: nat): nat
    requires m.Valid() && Below(states, m.numStates)
  {
    if states == [] then 0
    else Emitted(m, states[..|states| - 1], f) + Occurrences(Outputs(m, states[|states| - 1]), f)
  }

  lemma {:induction false} ContributionUpdate(m: Model, sv: Tally, k: nat, j: nat, f: nat)
    requires m.Valid() && |sv.ids| == |sv.counts| && Below(sv.ids, m.numStates)
    requires j < |sv.ids| && k <= |sv.ids|
    ensures var sv' := Tally(sv.ids, sv.counts[j := sv.counts[j] + 1]);
      Contribution(m, sv', k, f)
        == Contribution(m, sv, k, f) + (if j < k then Occurrences(Outputs(m, sv.ids[j]), f) else 0)
  {
    if k > 0 {
      ContributionUpdate(m, sv, k - 1, j, f);
      var sv' := Tally(sv.ids, sv.counts[j := sv.counts[j] + 1]);
      if j == k - 1 {
        SuccMul(sv.counts[j], Occurrences(Outputs(m, sv.ids[j]), f));
        assert sv'.counts[j] == sv.counts[j] + 1;
      }
    }
  }

  lemma {:induction false} ContributionExtend(m: Model, sv: Tally, k: nat, id: nat, f: nat)
    requires m.Valid() && |sv.ids| == |sv.counts| && Below(sv.ids, m.numStates)
    requires id < m.numStates && k <= |sv.ids|
    ensures Contribution(m, Tally(sv.ids + [id], sv.counts + [1]), k, f) == Contribution(m, sv, k, f)
  {
    if k > 0 {
      ContributionExtend(m, sv, k - 1, id, f);
    }
  }

  /** Adding one more visit of `q` to the state set adds exactly what `q` emits. */
  lemma AddVisit(m: Model, sv: Tally, q: nat, f: nat)
    requires m.Valid() && WellFormed(sv) && Below(sv.ids, m.numStates) && q < m.numStates
    ensures var sv' := Add(sv, q, 1);
      Below(sv'.ids, m.numStates) &&
      Contribution(m, sv', |sv'.ids|, f) == Contribution(m, sv, |sv.ids|, f) + Occurrences(Outputs(m, q), f)
  {
    AddWellFormed(sv, q, 1, m.numStates);
    if q in sv.ids {
      RevisitContribution(m, sv, q, f);
    } else {
      FirstVisitContribution(m, sv, q, f);
    }
  }

  lemma RevisitContribution(m: Model, sv: Tally, q: nat, f: nat)
    requires m.Valid() && WellFormed(sv) && Below(sv.ids, m.numStates) && q in sv.ids
    ensures var sv' := Add(sv, q, 1);
      |sv'.ids| == |sv.ids| && Below(sv'.ids, m.numStates) &&
      Contribution(m, sv', |sv.ids|, f) == Contribution(m, sv, |sv.ids|, f) + Occurrences(Outputs(m, q), f)
  {
    var j := IndexOf(sv.ids, q);
    var sv' := Tally(sv.ids, sv.counts[j := sv.counts[j] + 1]);
    assert Add(sv, q, 1) == sv';
    ContributionUpdate(m, sv, |sv.ids|, j, f);
  }

  lemma FirstVisitContribution(m: Model, sv: Tally, q: nat, f: nat)
    requires m.Valid() && WellFormed(sv) && Below(sv.ids, m.numStates) && q < m.numStates
    requires q !in sv.ids
    ensures var sv' := Add(sv, q, 1);
      |sv'.ids| == |sv.ids| + 1 && Below(sv'.ids, m.numStates) &&
      Contribution(m, sv', |sv.ids| + 1, f) == Contribution(m, sv, |sv.ids|, f) + Occurrences(Outputs(m, q), f)
  {
    var sv' := Tally(sv.ids + [q], sv.counts + [1]);
    assert Add(sv, q, 1) == sv';
    ContributionExtend(m, sv, |sv.ids|, q, f);
    var k := |sv.ids|;
    assert sv'.ids[k] == q && sv'.counts[k] == 1;
    assert Contribution(m, sv', k + 1, f)
      == Contribution(m, sv', k, f) + 1 * Occurrences(Outputs(m, q), f);
  }

  /** Whatever order the members are grouped in, each feature's final count is the number of
      times it is emitted along the whole run: every visit of a state contributes that state's
      output slice once. */
  lemma {:induction false} FeaturesPerVisit(m: Model, text: seq<Byte>, f: nat)
    requires m.Valid()
    ensures Count(FeatureTally(m, StateTally(m, text)), f) == Emitted(m, Trace(m, text), f)
    decreases |text|
  {
    var sv := StateTally(m, text);
    ExpandCount(m, sv, |sv.ids|, f);
    VisitContribution(m, Trace(m, text), f);
  }

  lemma {:induction false} VisitContribution(m: Model, states: seq<nat>, f: nat)
    requires m.Valid() && Below(states, m.numStates)
    ensures Contribution(m, Visited(m, states), |Visited(m, states).ids|, f) == Emitted(m, states, f)
    decreases |states|
  {
    if states != [] {
      var init := states[..|states| - 1];
      assert Below(init, m.numStates);
      VisitContribution(m, init, f);
      AddVisit(m, Visited(m, init), states[|states| - 1], f);
    }
  }

  /** An empty text leaves both sets empty. */
  lemma EmptyText(m: Model)
    requires m.Valid()
    ensures StateTally(m, []) == Empty
    ensures FeatureTally(m, StateTally(m, [])) == Empty
  {
  }
}
