/** The abstract value of a sparse counting set: the member ids in first-add order
    and, slot by slot, the count accumulated for each of them since the last clear. */
module Tallies {

  datatype Tally = Tally(ids: seq<nat>, counts: seq<nat>)

  /** The state right after `clear`: no members. */
  const Empty: Tally := Tally([], [])

  predicate Distinct(s: seq<nat>) {
    forall i, j :: 0 <= i < j < |s| ==> s[i] != s[j]
  }

  /** Parallel sequences, member ids unique. */
  predicate WellFormed(t: Tally) {
    |t.ids| == |t.counts| && Distinct(t.ids)
  }

  /** Every member id lies below `bound` (the capacity the set was allocated with). */
  predicate Below(s: seq<nat>, bound: nat) {
    forall i :: 0 <= i < |s| ==> s[i] < bound
  }

  /** The first slot holding `id`. */
  function IndexOf(s: seq<nat>, id: nat): (k: nat)
    requires id in s
    ensures k < |s| && s[k] == id
    ensures forall i :: 0 <= i < k ==> s[i] != id
  {
    if s[0] == id then 0 else 1 + IndexOf(s[1..], id)
  }

  /** `add(set, id, delta)`: a present id gets `delta` more, a new one is appended with count `delta`. */
  function Add(t: Tally, id: nat, delta: nat): (r: Tally)
    requires |t.ids| == |t.counts|
    ensures |r.ids| == |r.counts|
  {
    if id in t.ids then
      var k := IndexOf(t.ids, id);
      Tally(t.ids, t.counts[k := t.counts[k] + delta])
    else
      Tally(t.ids + [id], t.counts + [delta])
  }

  /** The count the set holds for `id`; 0 for an id that is not a member. */
  function Count(t: Tally, id: nat): nat
    requires |t.ids| == |t.counts|
  {
    if id in t.ids then t.counts[IndexOf(t.ids, id)] else 0
  }

  /** Add every id of `xs`, left to right, each with the same `delta`. */
  function AddAll(t: Tally, xs: seq<nat>, delta: nat): (r: Tally)
    requires |t.ids| == |t.counts|
    ensures |r.ids| == |r.counts|
    decreases |xs|
  {
    if xs == [] then t else Add(AddAll(t, xs[..|xs| - 1], delta), xs[|xs| - 1], delta)
  }

  function Sum(s: seq<nat>): nat {
    if s == [] then 0 else Sum(s[..|s| - 1]) + s[|s| - 1]
  }

  /** Number of occurrences of `x` in `s`. */
  function Occurrences(s: seq<nat>, x: nat): nat {
    multiset(s)[x]
  }

  lemma DistinctIndex(s: seq<nat>, k: nat)
    requires Distinct(s) && k < |s|
    ensures IndexOf(s, s[k]) == k
  {
  }

  /** Adding keeps the ids unique, keeps them below the capacity, and only ever appends. */
  lemma AddWellFormed(t: Tally, id: nat, delta: nat, bound: nat)
    requires WellFormed(t)
    ensures WellFormed(Add(t, id, delta))
    ensures Below(t.ids, bound) && id < bound ==> Below(Add(t, id, delta).ids, bound)
    ensures Add(t, id, delta).ids == if id in t.ids then t.ids else t.ids + [id]
  {
  }

  /** The count of every id after `add`: the added id gains `delta`, every other id is untouched. */
  lemma AddCount(t: Tally, id: nat, delta: nat, x: nat)
    requires WellFormed(t)
    ensures Count(Add(t, id, delta), x) == Count(t, x) + (if x == id then delta else 0)
  {
    var r := Add(t, id, delta);
    if id in t.ids {
      var k := IndexOf(t.ids, id);
      if x in t.ids {
        var kx := IndexOf(t.ids, x);
        if x != id {
          assert kx != k;
        }
      }
    } else {
      if x in t.ids {
        var kx := IndexOf(t.ids, x);
        assert r.ids[kx] == x;
        assert forall i :: 0 <= i < kx ==> r.ids[i] != x;
        assert IndexOf(r.ids, x) == kx by {
          IndexOfUnique(r.ids, x, kx);
        }
      } else if x == id {
        assert r.ids[|t.ids|] == x;
        IndexOfUnique(r.ids, x, |t.ids|);
      }
    }
  }

  lemma IndexOfUnique(s: seq<nat>, id: nat, k: nat)
    requires k < |s| && s[k] == id
    requires forall i :: 0 <= i < k ==> s[i] != id
    ensures IndexOf(s, id) == k
  {
  }

  lemma SumUpdate(s: seq<nat>, k: nat, v: nat)
    requires k < |s|
    ensures Sum(s[k := v]) + s[k] == Sum(s) + v
    decreases |s|
  {
    if k < |s| - 1 {
      assert s[k := v][..|s| - 1] == s[..|s| - 1][k := v];
      SumUpdate(s[..|s| - 1], k, v);
    } else {
      assert s[k := v][..|s| - 1] == s[..|s| - 1];
    }
  }

  /** `add` raises the total of all the counts by exactly `delta`. */
  lemma AddSum(t: Tally, id: nat, delta: nat)
    requires WellFormed(t)
    ensures Sum(Add(t, id, delta).counts) == Sum(t.counts) + delta
  {
    if id in t.ids {
      var k := IndexOf(t.ids, id);
      SumUpdate(t.counts, k, t.counts[k] + delta);
    } else {
      assert (t.counts + [delta])[..|t.counts|] == t.counts;
    }
  }

  /** Adding a whole sequence keeps the ids unique and below the capacity; the members are
      the old ones plus the elements of `xs`. */
  lemma {:induction false} AddAllMembers(t: Tally, xs: seq<nat>, delta: nat, bound: nat)
    requires WellFormed(t)
    ensures WellFormed(AddAll(t, xs, delta))
    ensures Below(t.ids, bound) && Below(xs, bound) ==> Below(AddAll(t, xs, delta).ids, bound)
    ensures forall x :: x in AddAll(t, xs, delta).ids <==> x in t.ids || x in xs
    decreases |xs|
  {
    if xs != [] {
      var init, last := xs[..|xs| - 1], xs[|xs| - 1];
      assert xs == init + [last];
      AddAllMembers(t, init, delta, bound);
      AddWellFormed(AddAll(t, init, delta), last, delta, bound);
    }
  }

  /** Adding a whole sequence, each element with `delta`: the count of `x` grows by `delta`
      times the number of times `x` occurs in it. */
  lemma {:induction false} AddAllCount(t: Tally, xs: seq<nat>, delta: nat, x: nat)
    requires WellFormed(t)
    ensures Count(AddAll(t, xs, delta), x) == Count(t, x) + delta * Occurrences(xs, x)
    decreases |xs|
  {
    if xs != [] {
      var init, last := xs[..|xs| - 1], xs[|xs| - 1];
      assert xs == init + [last];
      var p := AddAll(t, init, delta);
      AddAllCount(t, init, delta, x);
      AddAllMembers(t, init, delta, 0);
      AddCount(p, last, delta, x);
      assert multiset(xs) == multiset(init) + multiset{last};
      var k := Occurrences(init, x);
      if x == last {
        assert Occurrences(xs, x) == k + 1;
        MulSucc(delta, k);
      } else {
        assert Occurrences(xs, x) == k;
      }
    }
  }

  lemma SuccMul(b: nat, a: nat)
    ensures (b + 1) * a == b * a + a
  {
  }

  lemma MulSucc(a: nat, b: nat)
    ensures a * (b + 1) == a * b + a
  {
  }

  /** Adding a whole sequence raises the total of the counts by `|xs| * delta`. */
  lemma {:induction false} AddAllSum(t: Tally, xs: seq<nat>, delta: nat)
    requires WellFormed(t)
    ensures Sum(AddAll(t, xs, delta).counts) == Sum(t.counts) + delta * |xs|
    decreases |xs|
  {
    if xs != [] {
      var init, last := xs[..|xs| - 1], xs[|xs| - 1];
      AddAllSum(t, init, delta);
      AddAllMembers(t, init, delta, 0);
      AddSum(AddAll(t, init, delta), last, delta);
      MulSucc(delta, |init|);
    }
  }

  /** Every set of ids below `n` has at most `n` elements. */
  lemma {:induction false} BoundedSetCard(s: set<nat>, n: nat)
    requires forall x :: x in s ==> x < n
    ensures |s| <= n
  {
    if n > 0 {
      var rest := s - {n - 1};
      BoundedSetCard(rest, n - 1);
      assert |s| <= |rest| + 1;
    } else {
      assert s == {};
    }
  }

  function Elements(s: seq<nat>): set<nat> {
    set x | x in s
  }

  lemma {:induction false} DistinctCard(s: seq<nat>)
    requires Distinct(s)
    ensures |Elements(s)| == |s|
    decreases |s|
  {
    if s != [] {
      var init, last := s[..|s| - 1], s[|s| - 1];
      assert Distinct(init);
      DistinctCard(init);
      assert s == init + [last];
      assert last !in Elements(init);
      assert Elements(s) == Elements(init) + {last};
    }
  }

  /** Pigeonhole: distinct ids below `bound` number at most `bound`. */
  lemma DistinctBelowLength(s: seq<nat>, bound: nat)
    requires Distinct(s) && Below(s, bound)
    ensures |s| <= bound
  {
    DistinctCard(s);
    BoundedSetCard(Elements(s), bound);
  }
}
