/** The recency list as the source keeps it: one backing array updated in place
    (internal/app/conversations.go:546-574, 982-1003). */
module RecencyArray {
  import opened Orders
  import opened RecencyList

  lemma GapClosed(before: seq<string>, now: seq<string>, i: nat)
    requires i < |before| && |now| == |before| - 1
    requires forall k :: 0 <= k < i ==> now[k] == before[k]
    requires forall k :: i <= k < |now| ==> now[k] == before[k + 1]
    ensures now == before[..i] + before[i + 1..]
  {
  }

  class OrderList {
    var cells: array<string>
    var count: nat

    ghost predicate Valid()
      reads this, cells
    {
      count <= cells.Length && Distinct(cells[..count])
    }

    ghost function Ids(): seq<string>
      requires Valid()
      reads this, cells
    {
      cells[..count]
    }

    constructor ()
      ensures Valid() && Ids() == [] && fresh(cells)
    {
      cells := new string[0];
      count := 0;
    }

    /** copy(order[1:i+1], order[:i]): shifts the first i ids one place back, within the array. */
    method ShiftBack(i: nat)
      requires i < count <= cells.Length
      modifies cells
      ensures cells[..count] == old(cells[..1]) + old(cells[..i]) + old(cells[i + 1..count])
    {
      ghost var before := cells[..count];
      var j := i;
      while j > 0
        invariant 0 <= j <= i
        invariant forall k :: 0 <= k <= j ==> cells[k] == before[k]
        invariant forall k :: j < k <= i ==> cells[k] == before[k - 1]
        invariant forall k :: i < k < count ==> cells[k] == before[k]
      {
        cells[j] := cells[j - 1];
        j := j - 1;
      }
      assert cells[..count] == before[..1] + before[..i] + before[i + 1..];
    }

    /** moveToFrontLocked */
    method MoveToFront(id: string)
      requires Valid()
      modifies this, cells
      ensures Valid() && Ids() == ToFront(old(Ids()), id)
      ensures cells == old(cells) || fresh(cells)
    {
      hide Without, Distinct;
      ToFrontDistinct(Ids(), id);
      if count == 0 {
        return;
      }
      ghost var before := Ids();
      if cells[0] == id {
        WithoutAt(before, 0);
        assert before == [id] + (before[..0] + before[1..]);
        return;
      }
      for i := 0 to count
        invariant Valid() && Ids() == before
        invariant id !in before[..i]
      {
        if cells[i] == id {
          ShiftBack(i);
          cells[0] := id;
          WithoutAt(before, i);
          assert cells[..count] == [id] + (before[..i] + before[i + 1..]);
          return;
        }
      }
      WithoutAbsent(before, id);
      Prepend(id);
    }

    /** append([]string{id}, order...) */
    method Prepend(id: string)
      requires Valid() && id !in Ids()
      modifies this
      ensures Valid() && Ids() == [id] + old(Ids()) && fresh(cells)
    {
      hide Distinct;
      ghost var before := Ids();
      DistinctCons(id, before);
      var grown := new string[count + 1];
      grown[0] := id;
      for i := 0 to count
        invariant cells == old(cells) && count == old(count) && cells[..count] == before
        invariant grown[0] == id
        invariant forall k :: 0 <= k < i ==> grown[k + 1] == before[k]
      {
        grown[i + 1] := cells[i];
      }
      assert grown[..count + 1] == [id] + before;
      cells, count := grown, count + 1;
    }

    /** append(order[:i], order[i+1:]...): closes the gap within the array. */
    method RemoveAt(i: nat)
      requires Valid() && i < count
      modifies this, cells
      ensures Valid() && cells == old(cells)
      ensures Ids() == old(Ids())[..i] + old(Ids())[i + 1..]
      ensures count == old(count) - 1
    {
      hide Without, Distinct;
      ghost var before := Ids();
      WithoutDistinct(before, before[i]);
      WithoutAt(before, i);
      assert before[i + 1..] == cells[i + 1..count] && before[..i] == cells[..i];
      CloseGap(i);
      count := count - 1;
      assert cells[..count] == before[..i] + before[i + 1..];
    }

    method CloseGap(i: nat)
      requires i < count <= cells.Length
      modifies cells
      ensures cells[..count - 1] == old(cells[..i]) + old(cells[i + 1..count])
    {
      ghost var before := cells[..count];
      var j := i;
      while j + 1 < count
        invariant i <= j < count
        invariant forall k :: 0 <= k < i ==> cells[k] == before[k]
        invariant forall k :: i <= k < j ==> cells[k] == before[k + 1]
        invariant forall k :: j < k < count ==> cells[k] == before[k]
      {
        cells[j] := cells[j + 1];
        j := j + 1;
      }
      GapClosed(before, cells[..count - 1], i);
    }

    /** The loop of Delete: a new list of the ids other than the one removed. */
    method Remove(id: string)
      requires Valid()
      modifies this
      ensures Valid() && Ids() == Without(old(Ids()), id) && fresh(cells)
    {
      ghost var before := Ids();
      hide Distinct;
      WithoutDistinct(before, id);
      var next := new string[count];
      var n: nat := 0;
      for i := 0 to count
        invariant cells == old(cells) && count == old(count) && cells[..count] == before
        invariant n <= i
        invariant next[..n] == Without(before[..i], id)
      {
        assert before[..i + 1][..i] == before[..i];
        if cells[i] != id {
          next[n] := cells[i];
          n := n + 1;
        }
      }
      assert before[..count] == before;
      cells, count := next, n;
    }
  }
}
