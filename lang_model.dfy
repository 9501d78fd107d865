/** The read-only model a language identifier works over: the byte-level DFA with its
    per-state output tables, and the Naive Bayes parameters. */
module LangModel {

  /** One byte of input text, as `(unsigned char)text[i]` reads it. */
  type Byte = b: int | 0 <= b < 256

  /** Transitions per state: one for each byte value. */
  const AlphabetSize: nat := 256

  datatype Model = Model(
    numFeats: nat,
    numLangs: nat,
    numStates: nat,
    /** `tk_nextmove[state][byte]`: the state entered on reading `byte` in `state`. */
    nextMove: seq<seq<nat>>,
    /** `tk_output_c[state]`: how many features entering `state` completes. */
    outputCount: seq<nat>,
    /** `tk_output_s[state]`: where those features start in `output`. */
    outputStart: seq<nat>,
    /** `tk_output`: the flat table of feature ids. */
    output: seq<nat>,
    /** `nb_pc[lang]`: log prior of each language. */
    prior: seq<real>,
    /** `nb_ptc[feat * numLangs + lang]`: log likelihood of a feature given a language. */
    likelihood: seq<real>,
    /** `nb_classes[lang]`: the label of each language. */
    classes: seq<string>)
  {
    /** The shape facts every array access of the engine relies on. */
    predicate Valid() {
      TokenizerValid() && ClassifierValid()
    }

    /** State 0 is the start state, and every transition and every output entry stays in
        range. */
    predicate TokenizerValid() {
      && numStates > 0
      && |nextMove| == numStates
      && (forall s :: 0 <= s < numStates ==> |nextMove[s]| == AlphabetSize)
      && (forall s, b :: 0 <= s < numStates && 0 <= b < |nextMove[s]| ==> nextMove[s][b] < numStates)
      && |outputCount| == numStates && |outputStart| == numStates
      && (forall s :: 0 <= s < numStates ==> outputStart[s] + outputCount[s] <= |output|)
      && (forall k :: 0 <= k < |output| ==> output[k] < numFeats)
    }

    /** One prior and one label per language, and one likelihood per (feature, language)
        pair. */
    predicate ClassifierValid() {
      && |prior| == numLangs
      && |likelihood| == numFeats * numLangs
      && |classes| == numLangs
    }
  }
}
