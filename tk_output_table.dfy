/** The per-state output tables of the tokenizer as the packing scripts build them from a
    Python model's `tk_output` map (state to the list of features entering that state
    completes): a count per state, a start per state, and one flat table of feature ids. */
module TkOutputTable {
  import opened Tallies
  import opened LangModel
  import Extraction

  /** `identifier.tk_output`: some states mapped to the features they complete. */
  type OutputMap = map<nat, seq<nat>>

  /** `len(tk_nextmove) >> 8`: the transition table holds one row of 256 entries per state. */
  function NumStates(tkNextmove: seq<nat>): nat {
    |tkNextmove| / AlphabetSize
  }

  /** The features state `i` contributes: its list when it is present and non-empty, and
      nothing otherwise. */
  function Feats(tkOutput: OutputMap, i: nat): seq<nat> {
    if i in tkOutput && tkOutput[i] != [] then tkOutput[i] else []
  }

  /** `tk_output_c` after the first `n` states. */
  function Counts(tkOutput: OutputMap, n: nat): (c: seq<nat>)
    ensures |c| == n
  {
    if n == 0 then [] else Counts(tkOutput, n - 1) + [|Feats(tkOutput, n - 1)|]
  }

  /** `tk_output` after the first `n` states. */
  function Flat(tkOutput: OutputMap, n: nat): seq<nat> {
    if n == 0 then [] else Flat(tkOutput, n - 1) + Feats(tkOutput, n - 1)
  }

  /** `tk_output_s` after the first `n` states: each state starts where the flat table ended
      before it. */
  function Starts(tkOutput: OutputMap, n: nat): (s: seq<nat>)
    ensures |s| == n
  {
    if n == 0 then [] else Starts(tkOutput, n - 1) + [|Flat(tkOutput, n - 1)|]
  }

  lemma {:induction false} CountsAt(tkOutput: OutputMap, n: nat, i: nat)
    requires i < n
    ensures Counts(tkOutput, n)[i] == |Feats(tkOutput, i)|
  {
    if i < n - 1 {
      CountsAt(tkOutput, n - 1, i);
    }
  }

  lemma {:induction false} CountsPrefix(tkOutput: OutputMap, i: nat, n: nat)
    requires i <= n
    ensures Counts(tkOutput, n)[..i] == Counts(tkOutput, i)
  {
    if i < n {
      CountsPrefix(tkOutput, i, n - 1);
      assert Counts(tkOutput, n)[..n - 1] == Counts(tkOutput, n - 1);
    }
  }

  lemma {:induction false} StartsAt(tkOutput: OutputMap, n: nat, i: nat)
    requires i < n
    ensures Starts(tkOutput, n)[i] == |Flat(tkOutput, i)|
  {
    if i < n - 1 {
      StartsAt(tkOutput, n - 1, i);
    }
  }

  lemma {:induction false} FlatPrefix(tkOutput: OutputMap, i: nat, n: nat)
    requires i <= n
    ensures |Flat(tkOutput, i)| <= |Flat(tkOutput, n)|
    ensures Flat(tkOutput, n)[..|Flat(tkOutput, i)|] == Flat(tkOutput, i)
  {
    if i < n {
      FlatPrefix(tkOutput, i, n - 1);
      var pre := Flat(tkOutput, n - 1);
      assert Flat(tkOutput, n)[..|pre|] == pre;
    }
  }

  /** The flat table holds exactly as many entries as the counts add up to. */
  lemma {:induction false} FlatLength(tkOutput: OutputMap, n: nat)
    ensures |Flat(tkOutput, n)| == Sum(Counts(tkOutput, n))
  {
    if n > 0 {
      FlatLength(tkOutput, n - 1);
      assert Counts(tkOutput, n)[..n - 1] == Counts(tkOutput, n - 1);
    }
  }

  /** A state with a non-empty list gets its length as count; a state missing from the map,
      or mapped to an empty list, gets count 0. */
  lemma PackedCounts(tkOutput: OutputMap, n: nat, i: nat)
    requires i < n
    ensures i in tkOutput && tkOutput[i] != [] ==> Counts(tkOutput, n)[i] == |tkOutput[i]|
    ensures i !in tkOutput || tkOutput[i] == [] ==> Counts(tkOutput, n)[i] == 0
  {
    CountsAt(tkOutput, n, i);
  }

  /** Each start is the sum of the counts before it, so the first start is 0 and the starts
      never decrease. */
  lemma PackedStarts(tkOutput: OutputMap, n: nat, i: nat)
    requires i < n
    ensures Starts(tkOutput, n)[i] == Sum(Counts(tkOutput, n)[..i])
    ensures Starts(tkOutput, n)[0] == 0
    ensures forall j :: 0 <= j <= i ==> Starts(tkOutput, n)[j] <= Starts(tkOutput, n)[i]
  {
    StartsAt(tkOutput, n, i);
    StartsAt(tkOutput, n, 0);
    CountsPrefix(tkOutput, i, n);
    FlatLength(tkOutput, i);
    forall j | 0 <= j <= i ensures Starts(tkOutput, n)[j] <= Starts(tkOutput, n)[i] {
      StartsAt(tkOutput, n, j);
      FlatPrefix(tkOutput, j, i);
    }
  }

  /** The slice of the flat table a state's start and count delimit is that state's list,
      in order. */
  lemma PackedSlices(tkOutput: OutputMap, n: nat, i: nat)
    requires i < n
    ensures var s, c := Starts(tkOutput, n)[i], Counts(tkOutput, n)[i];
      s + c <= |Flat(tkOutput, n)| && Flat(tkOutput, n)[s..s + c] == Feats(tkOutput, i)
  {
    StartsAt(tkOutput, n, i);
    CountsAt(tkOutput, n, i);
    FlatSlice(tkOutput, i, n);
  }

  lemma FlatSlice(tkOutput: OutputMap, i: nat, n: nat)
    requires i < n
    ensures var s := |Flat(tkOutput, i)|;
      s + |Feats(tkOutput, i)| <= |Flat(tkOutput, n)|
      && Flat(tkOutput, n)[s..s + |Feats(tkOutput, i)|] == Feats(tkOutput, i)
  {
    FlatPrefix(tkOutput, i + 1, n);
    SliceOfPrefix(Flat(tkOutput, n), Flat(tkOutput, i + 1), Flat(tkOutput, i), Feats(tkOutput, i));
  }

  lemma SliceOfPrefix(all: seq<nat>, upto: seq<nat>, pre: seq<nat>, x: seq<nat>)
    requires upto == pre + x && |upto| <= |all| && all[..|upto|] == upto
    ensures |pre| + |x| <= |all| && all[|pre|..|pre| + |x|] == x
  {
    assert all[|pre|..|pre| + |x|] == upto[|pre|..];
  }

  /** Every entry of the flat table comes from the list of some state below `n`. */
  lemma {:induction false} PackedEntriesFromStates(tkOutput: OutputMap, n: nat, p: nat)
    requires p < |Flat(tkOutput, n)|
    ensures exists i, k ::
      0 <= i < n && i in tkOutput && 0 <= k < |tkOutput[i]| && Flat(tkOutput, n)[p] == tkOutput[i][k]
  {
    var pre := Flat(tkOutput, n - 1);
    if p < |pre| {
      PackedEntriesFromStates(tkOutput, n - 1, p);
      assert Flat(tkOutput, n)[p] == pre[p];
    } else {
      var i, k := n - 1, p - |pre|;
      assert Flat(tkOutput, n)[p] == tkOutput[i][k];
    }
  }

  /** When every listed feature is below `numFeats`, the packed tables meet the shape the
      tokenizer relies on: each state's slice lies inside the flat table, and the flat table
      holds only feature ids below `numFeats`. */
  lemma PackedInRange(tkOutput: OutputMap, n: nat, numFeats: nat)
    requires forall i, k :: i in tkOutput && 0 <= k < |tkOutput[i]| ==> tkOutput[i][k] < numFeats
    ensures forall st :: 0 <= st < n ==>
      Starts(tkOutput, n)[st] + Counts(tkOutput, n)[st] <= |Flat(tkOutput, n)|
    ensures forall p :: 0 <= p < |Flat(tkOutput, n)| ==> Flat(tkOutput, n)[p] < numFeats
  {
    forall st | 0 <= st < n
      ensures Starts(tkOutput, n)[st] + Counts(tkOutput, n)[st] <= |Flat(tkOutput, n)|
    {
      PackedSlices(tkOutput, n, st);
    }
    forall p | 0 <= p < |Flat(tkOutput, n)| ensures Flat(tkOutput, n)[p] < numFeats {
      PackedEntriesFromStates(tkOutput, n, p);
    }
  }

  /** A model whose output tables are the packed ones hands the tokenizer exactly each
      state's list: the features `text_to_fv` adds on entering a state are the ones the map
      gives for it. */
  lemma PackedOutputs(m: Model, tkOutput: OutputMap)
    requires m.Valid()
    requires m.outputCount == Counts(tkOutput, m.numStates)
    requires m.outputStart == Starts(tkOutput, m.numStates)
    requires m.output == Flat(tkOutput, m.numStates)
    ensures forall st :: 0 <= st < m.numStates ==> Extraction.Outputs(m, st) == Feats(tkOutput, st)
  {
    forall st | 0 <= st < m.numStates ensures Extraction.Outputs(m, st) == Feats(tkOutput, st) {
      PackedSlices(tkOutput, m.numStates, st);
    }
  }
}
