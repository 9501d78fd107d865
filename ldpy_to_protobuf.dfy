/** ldpy_to_protobuf.py, which repacks a Python model as a protocol buffer message for
    `load_identifier`, carries its own copy of `pack_tk_output`; it builds the same three
    tables as the copy in ldpy2ldc.py. */
module LdpyToProtobuf {
  import opened TkOutputTable
  import opened LangModel

  /** `pack_tk_output(identifier)`, given the identifier's `tk_nextmove` and `tk_output`:
      for every state, append its count, its start and its features. */
  method PackTkOutput(tkNextmove: seq<nat>, tkOutput: OutputMap)
    returns (tkOutputC: seq<nat>, tkOutputS: seq<nat>, tkOutputFlat: seq<nat>)
    ensures tkOutputC == Counts(tkOutput, NumStates(tkNextmove))
    ensures tkOutputS == Starts(tkOutput, NumStates(tkNextmove))
    ensures tkOutputFlat == Flat(tkOutput, NumStates(tkNextmove))
  {
    var numStates := |tkNextmove| / AlphabetSize;
    tkOutputC, tkOutputS, tkOutputFlat := [], [], [];
    var i := 0;
    while i < numStates
      invariant 0 <= i <= numStates
      invariant tkOutputC == Counts(tkOutput, i)
      invariant tkOutputS == Starts(tkOutput, i)
      invariant tkOutputFlat == Flat(tkOutput, i)
    {
      var count: nat;
      var feats: seq<nat>;
      if i in tkOutput && tkOutput[i] != [] {
        count := |tkOutput[i]|;
        feats := tkOutput[i];
      } else {
        count := 0;
        feats := [];
      }
      tkOutputC := tkOutputC + [count];
      tkOutputS := tkOutputS + [|tkOutputFlat|];
      tkOutputFlat := tkOutputFlat + feats;
      i := i + 1;
    }
  }
}
