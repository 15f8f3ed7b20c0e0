/**
 * The children buffer of an arm as the source keeps it: a heap array of
 * child entries and a `children_length` counter, where only the first
 * `length` slots are children. Appending grows the array by a copy; removal
 * shifts the tail left over the removed slot; clearing removes while it
 * walks, then zeroes the counter.
 */
module ChildBuffer {
  import opened ArmTree

  /** The entries of `s` at odd indices, in order. */
  function OddIndexed(s: seq<Arm>): (r: seq<Arm>)
    ensures |r| == |s| / 2
    ensures forall k :: 0 <= k < |r| ==> r[k] == s[2 * k + 1]
  {
    seq(|s| / 2, k requires 0 <= k < |s| / 2 => s[2 * k + 1])
  }

  /** The entries of `s` at even indices, in order. */
  function EvenIndexed(s: seq<Arm>): (r: seq<Arm>)
    ensures |r| == (|s| + 1) / 2
    ensures forall k :: 0 <= k < |r| ==> r[k] == s[2 * k]
  {
    seq((|s| + 1) / 2, k requires 0 <= k < (|s| + 1) / 2 => s[2 * k])
  }

  /**
   * The children while `Clear` runs, after `i` passes of its loop: the
   * odd-position entries of the part it has walked over, then the rest.
   */
  function ClearingAfter(original: seq<Arm>, i: nat): seq<Arm>
    requires i <= |original|
  {
    var m := if 2 * i <= |original| then 2 * i else |original|;
    OddIndexed(original[..m]) + original[m..]
  }

  /**
   * One pass of the clearing loop: the entry at slot `i` is the original's
   * entry `2i`, and dropping that slot leaves the state after `i + 1` passes
   * (all odd-position entries, when that was the last entry).
   */
  lemma ClearStep(original: seq<Arm>, i: nat)
    requires 2 * i < |original|
    ensures var cur := ClearingAfter(original, i);
            |cur| == |original| - i && cur[i] == original[2 * i] &&
            cur[..i] + cur[i + 1..] == ClearingAfter(original, i + 1)
  {
    var odd := OddIndexed(original[..2 * i]);
    assert |odd| == i;
    var cur := ClearingAfter(original, i);
    assert cur[..i] == odd;
    assert cur[i + 1..] == original[2 * i + 1..];
    if 2 * i + 2 <= |original| {
      assert OddIndexed(original[..2 * i + 2]) == odd + [original[2 * i + 1]];
      assert original[2 * i + 1..] == [original[2 * i + 1]] + original[2 * i + 2..];
    } else {
      assert original[..|original|] == original;
      assert OddIndexed(original) == odd;
      assert original[2 * i + 1..] == [];
    }
  }

  /** When the clearing loop stops, the entries it visited are exactly the even-position ones. */
  lemma VisitedAreEven(original: seq<Arm>, visited: seq<Arm>)
    requires |original| <= 2 * |visited| <= |original| + 1
    requires forall k :: 0 <= k < |visited| ==> visited[k] == original[2 * k]
    ensures visited == EvenIndexed(original)
  {
  }

  /** Visiting the original's entry `2i` extends the visited entries by one. */
  lemma VisitNext(original: seq<Arm>, visited: seq<Arm>, x: Arm)
    requires 2 * |visited| < |original| && x == original[2 * |visited|]
    requires forall k :: 0 <= k < |visited| ==> visited[k] == original[2 * k]
    ensures forall k :: 0 <= k < |visited + [x]| ==> (visited + [x])[k] == original[2 * k]
  {
  }

  /** Changing entries without changing their identities keeps identities distinct. */
  lemma SameIdsDistinct(cs: seq<Arm>, ds: seq<Arm>)
    requires DistinctIds(cs) && |cs| == |ds|
    requires forall j :: 0 <= j < |cs| ==> cs[j].id == ds[j].id
    ensures DistinctIds(ds)
  {
  }

  /** Deleting one entry keeps identities distinct. */
  lemma DeleteDistinct(cs: seq<Arm>, k: nat)
    requires DistinctIds(cs) && k < |cs|
    ensures DistinctIds(cs[..k] + cs[k + 1..])
  {
    var ds := cs[..k] + cs[k + 1..];
    assert forall j :: 0 <= j < |ds| ==> ds[j] == cs[if j < k then j else j + 1];
  }

  class ChildList {
    var data: array<Arm>
    var length: nat

    ghost predicate Valid()
      reads this
    {
      length <= data.Length
    }

    /** The children: the first `length` slots. */
    function Contents(): seq<Arm>
      reads this, data
      requires Valid()
    {
      data[..length]
    }

    /** An arm's buffer as the constructor leaves it: no slots, no children. */
    constructor ()
      ensures Valid() && Contents() == [] && fresh(data)
    {
      data := new Arm[0];
      length := 0;
    }

    /** The array part of `add_child`: the array grows by one slot, old entries copied, the child last. */
    method Append(c: Arm)
      requires Valid()
      modifies this
      ensures Valid() && fresh(data)
      ensures Contents() == old(Contents()) + [c]
    {
      var grown := new Arm[length + 1];
      var i := 0;
      while i < length
        invariant 0 <= i <= length <= data.Length
        invariant grown[..i] == data[..i]
        modifies grown
      {
        grown[i] := data[i];
        i := i + 1;
      }
      grown[length] := c;
      assert grown[..length + 1] == data[..length] + [c];
      data := grown;
      length := length + 1;
    }

    /** The shift loop: every slot from `i` on takes its right neighbour's entry. */
    method ShiftLeft(i: nat)
      requires Valid() && i < length
      modifies data
      ensures data[..length - 1] == old(data[..length])[..i] + old(data[..length])[i + 1..]
    {
      var j := i;
      while j < length - 1
        invariant i <= j <= length - 1
        invariant forall m :: 0 <= m < i ==> data[m] == old(data[m])
        invariant forall m :: i <= m < j ==> data[m] == old(data[m + 1])
        invariant forall m :: j <= m < length ==> data[m] == old(data[m])
      {
        data[j] := data[j + 1];
        j := j + 1;
      }
      assert data[..length - 1] == old(data[..length])[..i] + old(data[..length])[i + 1..];
    }

    /**
     * `Spirograph::remove_child` on the buffer: the last slot is checked
     * first, then the first, then every slot from the front; a match is
     * dropped and the entries after it shift left. The shrinking `realloc`
     * does not change the children and is not modelled.
     */
    method Remove(id: nat)
      requires Valid()
      modifies this, data
      ensures Valid() && data == old(data)
      ensures Contents() == Removed(old(Contents()), id)
    {
      if length == 0 {
        return;
      }
      if data[length - 1].id == id {
        length := length - 1;
        return;
      }
      if data[0].id == id {
        ShiftLeft(0);
        length := length - 1;
        return;
      }
      var i := Find(id);
      if i < length {
        ShiftLeft(i);
        length := length - 1;
      }
    }

    /** The front-to-back scan: the first slot holding `id`, or `length` when none does. */
    method Find(id: nat) returns (i: nat)
      requires Valid()
      ensures i == IndexOf(Contents(), id)
    {
      i := 0;
      while i < length
        invariant 0 <= i <= length
        invariant forall j :: 0 <= j < i ==> data[j].id != id
      {
        if data[i].id == id {
          assert IndexOf(data[..length], id) == i;
          return;
        }
        i := i + 1;
      }
      assert IndexOf(data[..length], id) == length;
    }

    /**
     * One pass of the clearing loop, `i` passes in: the entry at slot `i`,
     * the original's entry `2i`, has its own children cleared and is then
     * removed by identity, which drops exactly that slot since identities
     * are distinct.
     */
    method ClearAndRemoveAt(i: nat, ghost original: seq<Arm>)
      requires Valid() && 2 * i < |original| && Contents() == ClearingAfter(original, i)
      requires DistinctIds(Contents())
      modifies this, data
      ensures Valid() && data == old(data) && length == old(length) - 1
      ensures old(Contents())[i] == original[2 * i]
      ensures Contents() == ClearingAfter(original, i + 1)
      ensures DistinctIds(Contents())
    {
      ClearStep(original, i);
      ghost var before := Contents();
      data[i] := ClearChildren(data[i]);
      ghost var cleared := Contents();
      assert cleared == before[i := ClearChildren(before[i])];
      SameIdsDistinct(before, cleared);
      RemovedDeletesEntry(cleared, i);
      DeleteDistinct(cleared, i);
      assert cleared[..i] + cleared[i + 1..] == before[..i] + before[i + 1..];
      Remove(data[i].id);
    }

    /**
     * `Spirograph::clear_children` on the buffer. Each visited entry is
     * cleared and removed; the removal shifts the next entry into the slot
     * the loop has just passed, so only the entries at even positions are
     * visited. The counter is then forced to 0, so the list ends empty all the
     * same. `visited` lists the entries the loop reached, the ones whose own
     * children it cleared first.
     */
    method Clear() returns (ghost visited: seq<Arm>)
      requires Valid() && DistinctIds(Contents())
      modifies this, data
      ensures Valid() && data == old(data)
      ensures Contents() == []
      ensures visited == EvenIndexed(old(Contents()))
    {
      ghost var original := Contents();
      ghost var n := |original|;
      visited := [];
      var i := 0;
      while i < length
        invariant Valid() && data == old(data)
        invariant i <= n && 2 * i <= n + 1 && length == n - i
        invariant Contents() == ClearingAfter(original, i)
        invariant DistinctIds(Contents())
        invariant |visited| == i
        invariant forall k :: 0 <= k < i ==> visited[k] == original[2 * k]
        decreases length - i
      {
        ClearStep(original, i);
        VisitNext(original, visited, Contents()[i]);
        visited := visited + [Contents()[i]];
        ClearAndRemoveAt(i, original);
        i := i + 1;
      }
      VisitedAreEven(original, visited);
      length := 0;
    }
  }
}
