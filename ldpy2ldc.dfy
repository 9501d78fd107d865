/** The helpers ldpy2ldc.py uses to repack a Python model as C source: `pack_tk_output`,
    which flattens the per-state output lists, `chunk`, which cuts `tk_nextmove` back into
    rows of 256, and `as_c_array_init`, which writes a sequence as a brace initializer. */
module Ldpy2Ldc {
  import opened TkOutputTable
  import opened LangModel

  /** `pack_tk_output(identifier)`, given the identifier's `tk_nextmove` and `tk_output`:
      for every state, append its count, its start and its features. */
  method PackTkOutput(tkNextmove: seq<nat>, tkOutput: OutputMap)
    returns (tkOutputC: seq<nat>, tkOutputS: seq<nat>, tkOutputFlat: seq<nat>)
    ensures tkOutputC == Counts(tkOutput, NumStates(tkNextmove))
    ensures tkOutputS == Starts(tkOutput, NumStates(tkNextmove))
    ensures tkOutputFlat == Flat(tkOutput, NumStates(tkNextmove))
  {
    var numStates := |tkNextmove| / AlphabetSize;
    tkOutputC, tkOutputS, tkOutputFlat := [], [], [];
    var i := 0;
    while i < numStates
      invariant 0 <= i <= numStates
      invariant tkOutputC == Counts(tkOutput, i)
      invariant tkOutputS == Starts(tkOutput, i)
      invariant tkOutputFlat == Flat(tkOutput, i)
    {
      var count: nat;
      var feats: seq<nat>;
      if i in tkOutput && tkOutput[i] != [] {
        count := |tkOutput[i]|;
        feats := tkOutput[i];
      } else {
        count := 0;
        feats := [];
      }
      tkOutputC := tkOutputC + [count];
      tkOutputS := tkOutputS + [|tkOutputFlat|];
      tkOutputFlat := tkOutputFlat + feats;
      i := i + 1;
    }
  }

  /** The tuples `chunk(seq, chunksize)` yields: successive slices of `chunksize` elements, the
      last one possibly shorter. A chunk size of 0 makes the first slice empty, which stops
      the generator at once. */
  function Chunks<T>(xs: seq<T>, n: nat): seq<seq<T>>
    decreases |xs|
  {
    if n == 0 || xs == [] then []
    else if |xs| <= n then [xs]
    else [xs[..n]] + Chunks(xs[n..], n)
  }

  function Concat<T>(ss: seq<seq<T>>): seq<T>
    decreases |ss|
  {
    if ss == [] then [] else ss[0] + Concat(ss[1..])
  }

  /** `chunk`: take up to `chunksize` elements from the iterator until a take comes back
      empty. */
  method Chunk<T>(xs: seq<T>, chunksize: nat) returns (chunks: seq<seq<T>>)
    ensures chunks == Chunks(xs, chunksize)
  {
    chunks := [];
    var rest := xs;
    while true
      invariant chunks + Chunks(rest, chunksize) == Chunks(xs, chunksize)
      decreases |rest|
    {
      ghost var before := rest;
      var take := if chunksize < |rest| then chunksize else |rest|;
      var c := rest[..take];
      rest := rest[take..];
      if c == [] {
        break;
      }
      assert take > 0 && chunksize > 0;
      if |before| <= chunksize {
        assert c == before && rest == [];
      } else {
        assert c == before[..chunksize] && rest == before[chunksize..];
      }
      assert Chunks(before, chunksize) == [c] + Chunks(rest, chunksize);
      chunks := chunks + [c];
    }
  }

  /** For a positive chunk size every chunk is non-empty and at most `n` long, all but the
      last are exactly `n` long, and together they are the input, in order. */
  lemma {:induction false} ChunksShape<T>(xs: seq<T>, n: nat)
    requires n > 0
    ensures forall i :: 0 <= i < |Chunks(xs, n)| ==> 0 < |Chunks(xs, n)[i]| <= n
    ensures forall i :: 0 <= i < |Chunks(xs, n)| - 1 ==> |Chunks(xs, n)[i]| == n
    ensures Concat(Chunks(xs, n)) == xs
    decreases |xs|
  {
    if |xs| > n {
      var rest := xs[n..];
      ChunksShape(rest, n);
      var cs := Chunks(xs, n);
      assert cs[1..] == Chunks(rest, n);
      assert Concat(cs) == xs[..n] + Concat(Chunks(rest, n));
      assert xs == xs[..n] + rest;
    } else if xs != [] {
      assert Concat(Chunks(xs, n)) == xs + Concat([]);
    }
  }

  /** With a chunk size of 0 nothing is yielded. */
  lemma ChunksZero<T>(xs: seq<T>)
    ensures Chunks(xs, 0) == []
  {
  }

  lemma MulPred(rows: nat, n: nat)
    requires rows > 0
    ensures rows * n == (rows - 1) * n + n
  {
  }

  /** An input of `rows * n` elements is cut into exactly `rows` chunks. */
  lemma {:induction false} ChunksRows<T>(xs: seq<T>, n: nat, rows: nat)
    requires n > 0 && |xs| == rows * n
    ensures |Chunks(xs, n)| == rows
    decreases rows
  {
    if rows > 0 {
      MulPred(rows, n);
      if rows > 1 {
        ChunksRows(xs[n..], n, rows - 1);
      }
    }
  }

  /** In an input of `rows * n` elements, chunk `i` holds elements `i * n` up to
      `(i + 1) * n`. */
  lemma {:induction false} ChunkAt<T>(xs: seq<T>, n: nat, rows: nat, i: nat)
    requires n > 0 && |xs| == rows * n && i < rows
    ensures i < |Chunks(xs, n)| && i * n + n <= |xs|
    ensures Chunks(xs, n)[i] == xs[i * n..i * n + n]
    decreases i
  {
    MulPred(rows, n);
    ChunksRows(xs, n, rows);
    if i > 0 {
      var rest := xs[n..];
      ChunkAt(rest, n, rows - 1, i - 1);
      MulPred(i, n);
      var prev := (i - 1) * n;
      assert Chunks(xs, n)[i] == Chunks(rest, n)[i - 1];
      SliceOfRest(xs, n, prev);
    } else {
      assert xs[0..n] == xs[..n];
      if |xs| == n {
        assert xs[..n] == xs;
      }
    }
  }

  lemma SliceOfRest<T>(xs: seq<T>, n: nat, lo: nat)
    requires n <= |xs| && lo + n <= |xs| - n
    ensures xs[n..][lo..lo + n] == xs[lo + n..lo + n + n]
  {
  }

  /** Chunking a transition table whose length is a multiple of 256 yields one row of 256
      transitions per state. */
  lemma NextMoveRows(tkNextmove: seq<nat>)
    requires |tkNextmove| % AlphabetSize == 0
    ensures |Chunks(tkNextmove, AlphabetSize)| == NumStates(tkNextmove)
    ensures forall i :: 0 <= i < NumStates(tkNextmove) ==>
      |Chunks(tkNextmove, AlphabetSize)[i]| == AlphabetSize
  {
    var rows := |tkNextmove| / AlphabetSize;
    ChunksRows(tkNextmove, AlphabetSize, rows);
    forall i | 0 <= i < rows ensures |Chunks(tkNextmove, AlphabetSize)[i]| == AlphabetSize {
      ChunkAt(tkNextmove, AlphabetSize, rows, i);
    }
  }

  /** `map(str, seq)`. */
  function Map<T>(xs: seq<T>, str: T -> string): (r: seq<string>)
    ensures |r| == |xs|
    ensures forall i :: 0 <= i < |xs| ==> r[i] == str(xs[i])
    decreases |xs|
  {
    if xs == [] then [] else [str(xs[0])] + Map(xs[1..], str)
  }

  /** `sep.join(parts)`. */
  function Join(parts: seq<string>, sep: char): string
    decreases |parts|
  {
    if parts == [] then ""
    else if |parts| == 1 then parts[0]
    else parts[0] + [sep] + Join(parts[1..], sep)
  }

  /** The first position of `c` in `s`. */
  function Find(s: string, c: char): (k: nat)
    requires c in s
    ensures k < |s| && s[k] == c
    ensures forall i :: 0 <= i < k ==> s[i] != c
  {
    if s[0] == c then 0 else 1 + Find(s[1..], c)
  }

  /** Cutting `s` at every `sep`: the reading a C compiler makes of the initializer's
      comma-separated items. */
  function Split(s: string, sep: char): (parts: seq<string>)
    ensures parts != []
    ensures forall i :: 0 <= i < |parts| ==> sep !in parts[i]
    decreases |s|
  {
    if sep in s then
      var k := Find(s, sep);
      [s[..k]] + Split(s[k + 1..], sep)
    else [s]
  }

  lemma FindAfterPart(p: string, sep: char, tail: string)
    requires sep !in p
    ensures Find(p + [sep] + tail, sep) == |p|
  {
    var s := p + [sep] + tail;
    assert s[|p|] == sep;
    assert forall i :: 0 <= i < |p| ==> s[i] == p[i];
    FindUnique(s, sep, |p|);
  }

  lemma FindUnique(s: string, c: char, k: nat)
    requires k < |s| && s[k] == c
    requires forall i :: 0 <= i < k ==> s[i] != c
    ensures Find(s, c) == k
  {
  }

  /** Splitting what `join` produced gives back the parts, as long as no part holds the
      separator. */
  lemma {:induction false} SplitJoin(parts: seq<string>, sep: char)
    requires parts != []
    requires forall i :: 0 <= i < |parts| ==> sep !in parts[i]
    ensures Split(Join(parts, sep), sep) == parts
    decreases |parts|
  {
    if |parts| > 1 {
      var head := parts[0];
      var rest := Join(parts[1..], sep);
      var s := head + [sep] + rest;
      assert Join(parts, sep) == s;
      FindAfterPart(head, sep, rest);
      assert s[|head|] == sep;
      assert s[..|head|] == head;
      assert s[|head| + 1..] == rest;
      assert Split(s, sep) == [head] + Split(rest, sep);
      SplitJoin(parts[1..], sep);
      assert parts == [head] + parts[1..];
    }
  }

  /** Joining what `Split` produced gives back the string. */
  lemma {:induction false} JoinSplit(s: string, sep: char)
    ensures Join(Split(s, sep), sep) == s
    decreases |s|
  {
    if sep in s {
      var k := Find(s, sep);
      var rest := s[k + 1..];
      JoinSplit(rest, sep);
      var parts := Split(s, sep);
      assert parts[1..] == Split(rest, sep);
      assert s == s[..k] + [sep] + rest;
    }
  }

  /** `as_c_array_init(seq)`: the items written with `str`, comma-separated, in braces. */
  function AsCArrayInit<T>(xs: seq<T>, str: T -> string): (r: string)
    ensures |r| >= 2 && r[0] == '{' && r[|r| - 1] == '}'
    ensures xs == [] ==> r == "{}"
  {
    "{" + Join(Map(xs, str), ',') + "}"
  }

  /** Between the braces, an initializer of a non-empty sequence reads back, item by item, as
      the `str` of each element, as long as no element's text contains a comma. */
  lemma AsCArrayInitItems<T>(xs: seq<T>, str: T -> string)
    requires xs != []
    requires forall i :: 0 <= i < |xs| ==> ',' !in str(xs[i])
    ensures var r := AsCArrayInit(xs, str);
      Split(r[1..|r| - 1], ',') == Map(xs, str)
  {
    var r := AsCArrayInit(xs, str);
    assert r[1..|r| - 1] == Join(Map(xs, str), ',');
    SplitJoin(Map(xs, str), ',');
  }

  function DigitChar(d: nat): char
    requires d < 10
  {
    (('0' as int) + d) as char
  }

  predicate IsDigits(s: string) {
    forall i :: 0 <= i < |s| ==> '0' <= s[i] <= '9'
  }

  /** `str(n)` for a non-negative integer: its decimal digits, most significant first. */
  function Decimal(n: nat): (r: string)
    ensures r != [] && IsDigits(r)
    ensures r[0] == '0' ==> n == 0
    decreases n
  {
    if n < 10 then [DigitChar(n)] else Decimal(n / 10) + [DigitChar(n % 10)]
  }

  /** The value of a string of decimal digits. */
  function ParseDecimal(s: string): nat
    requires IsDigits(s)
    decreases |s|
  {
    if s == [] then 0 else 10 * ParseDecimal(s[..|s| - 1]) + (s[|s| - 1] as int - '0' as int)
  }

  /** Reading the digits `str` writes gives back the number. */
  lemma {:induction false} DecimalRoundTrip(n: nat)
    ensures ParseDecimal(Decimal(n)) == n
    decreases n
  {
    if n >= 10 {
      DecimalRoundTrip(n / 10);
      var s := Decimal(n);
      assert s[..|s| - 1] == Decimal(n / 10);
    }
  }

  /** An initializer of unsigned values, as written for `tk_output_c`, `tk_output_s` and
      `tk_output`, holds one item per element, and each item reads back as that element. */
  lemma UnsignedArrayRoundTrip(xs: seq<nat>)
    requires xs != []
    ensures var r := AsCArrayInit(xs, Decimal);
      var items := Split(r[1..|r| - 1], ',');
      |items| == |xs| && forall i :: 0 <= i < |xs| ==> IsDigits(items[i]) && ParseDecimal(items[i]) == xs[i]
  {
    forall i | 0 <= i < |xs| ensures ',' !in Decimal(xs[i]) {
      var d := Decimal(xs[i]);
      assert forall k :: 0 <= k < |d| ==> d[k] != ',';
    }
    AsCArrayInitItems(xs, Decimal);
    forall i | 0 <= i < |xs| ensures ParseDecimal(Decimal(xs[i])) == xs[i] {
      DecimalRoundTrip(xs[i]);
    }
  }
}
