/** The counting sparse set that liblangid.c keeps for the visited DFA states and for the
    extracted features.  Its implementation file is not part of this model; the class gives the
    classic dense/sparse representation of the interface liblangid.c uses: `clear`,
    `add(set, id, delta)`, the member count `members`, and the parallel arrays `dense` (the id
    in slot i) and `counts` (the count accumulated for that id). */
module SparseSets {
  import opened Tallies

  class SparseSet {
    const capacity: nat
    const dense: array<nat>
    const sparse: array<nat>
    const counts: array<nat>
    var members: nat

    /** The objects this set is made of. */
    function Repr(): set<object> {
      {this, dense, sparse, counts}
    }

    /** A slot below `members` is valid exactly when the sparse entry of its id points back to
        it, so `sparse` never has to be reset. */
    ghost predicate Valid()
      reads this, dense, sparse, counts
    {
      && dense.Length == capacity && sparse.Length == capacity && counts.Length == capacity
      && dense != sparse && dense != counts && sparse != counts
      && members <= capacity
      && (forall i :: 0 <= i < members ==> dense[i] < capacity && sparse[dense[i]] == i)
    }

    /** The abstract value: member ids in first-add order, with their counts. */
    ghost function Model(): (t: Tally)
      reads this, dense, sparse, counts
      requires Valid()
      ensures WellFormed(t) && Below(t.ids, capacity)
      ensures |t.ids| == members
      ensures forall i :: 0 <= i < members ==> t.ids[i] == dense[i] && t.counts[i] == counts[i]
    {
      Tally(dense[..members], counts[..members])
    }

    /** `alloc_set(capacity)`: an empty set over the ids `[0, capacity)`. */
    constructor (capacity: nat)
      ensures Valid() && fresh(Repr())
      ensures this.capacity == capacity && Model() == Empty
    {
      this.capacity := capacity;
      dense := new nat[capacity];
      sparse := new nat[capacity];
      counts := new nat[capacity];
      members := 0;
    }

    /** `clear(set)`: drop every member by resetting the member count alone. */
    method Clear()
      requires Valid()
      modifies this
      ensures Valid() && Model() == Empty
    {
      members := 0;
    }

    /** `add(set, id, delta)`. */
    method Add(id: nat, delta: nat)
      requires Valid() && id < capacity
      modifies Repr()
      ensures Valid() && Model() == Tallies.Add(old(Model()), id, delta)
    {
      ghost var before := Model();
      var p := sparse[id];
      if p < members && dense[p] == id {
        DistinctIndex(before.ids, p);
        counts[p] := counts[p] + delta;
        assert Model().ids == before.ids;
        assert Model().counts == before.counts[p := before.counts[p] + delta];
      } else {
        assert id !in before.ids;
        assert Distinct(before.ids + [id]) && Below(before.ids + [id], capacity);
        DistinctBelowLength(before.ids + [id], capacity);
        dense[members] := id;
        counts[members] := delta;
        sparse[id] := members;
        members := members + 1;
        assert dense[..members] == before.ids + [id];
        assert counts[..members] == before.counts + [delta];
      }
    }
  }
}
