/** The recency list of the conversation store: conversation ids, most recent first
    (internal/app/conversations.go:546-574, 982-1003). */
module RecencyList {
  import opened Orders

  /** The list without an id, the others in unchanged order. */
  function Without(order: seq<string>, id: string): seq<string> {
    if order == [] then []
    else Without(order[..|order| - 1], id) + if order[|order| - 1] == id then [] else [order[|order| - 1]]
  }

  /** The list with an id brought to the front. An empty list stays empty: the source returns early on it. */
  function ToFront(order: seq<string>, id: string): seq<string> {
    if order == [] then [] else [id] + Without(order, id)
  }

  /** The list without the n least recent of its ids that are not protected, or without all of these. */
  function DropOldest(order: seq<string>, keep: set<string>, n: nat): seq<string> {
    if n == 0 || order == [] then order
    else
      var init, last := order[..|order| - 1], order[|order| - 1];
      if last in keep then DropOldest(init, keep, n) + [last] else DropOldest(init, keep, n - 1)
  }

  /** Trimming to a capacity. */
  function Trimmed(order: seq<string>, keep: set<string>, capacity: nat): seq<string> {
    DropOldest(order, keep, if |order| > capacity then |order| - capacity else 0)
  }

  // ---- What moving to the front and removing do -----------------------------------------------

  lemma {:induction false} WithoutMembers(order: seq<string>, id: string)
    ensures forall x :: x in Without(order, id) <==> x in order && x != id
    ensures |Without(order, id)| <= |order|
    decreases |order|
  {
    if order != [] {
      WithoutMembers(order[..|order| - 1], id);
      assert order == order[..|order| - 1] + [order[|order| - 1]];
    }
  }

  lemma {:induction false} WithoutDistinct(order: seq<string>, id: string)
    requires Distinct(order)
    ensures Distinct(Without(order, id))
    decreases |order|
  {
    if order != [] {
      var init, last := order[..|order| - 1], order[|order| - 1];
      WithoutDistinct(init, id);
      WithoutMembers(init, id);
      assert last !in init;
      if last != id {
        DistinctSnoc(Without(init, id), last);
      }
    }
  }

  lemma {:induction false} WithoutAbsent(order: seq<string>, id: string)
    requires id !in order
    ensures Without(order, id) == order
    decreases |order|
  {
    if order != [] {
      WithoutAbsent(order[..|order| - 1], id);
    }
  }

  lemma {:induction false} WithoutAppend(a: seq<string>, b: seq<string>, id: string)
    ensures Without(a + b, id) == Without(a, id) + Without(b, id)
    decreases |b|
  {
    if b == [] {
      assert a + b == a;
    } else {
      WithoutAppend(a, b[..|b| - 1], id);
      assert (a + b)[..|a + b| - 1] == a + b[..|b| - 1];
    }
  }

  lemma WithoutItself(id: string)
    ensures Without([id], id) == []
  {
    assert [id][..0] == [];
  }

  lemma WithoutBetween(a: seq<string>, id: string, b: seq<string>)
    requires id !in a && id !in b
    ensures Without(a + [id] + b, id) == a + b
  {
    hide Without;
    WithoutAppend(a + [id], b, id);
    WithoutAppend(a, [id], id);
    WithoutAbsent(a, id);
    WithoutAbsent(b, id);
    WithoutItself(id);
    assert a + [] + b == a + b;
  }

  lemma DistinctAround(order: seq<string>, i: nat)
    requires Distinct(order) && i < |order|
    ensures order[i] !in order[..i] && order[i] !in order[i + 1..]
  {
    var rest := order[i + 1..];
    assert forall k :: 0 <= k < |rest| ==> rest[k] == order[i + 1 + k];
  }

  lemma Reassembled(order: seq<string>, i: nat)
    requires i < |order|
    ensures order == order[..i] + [order[i]] + order[i + 1..]
  {
  }

  /** Around its position, the list without an id is what comes before and what comes after. */
  lemma WithoutAt(order: seq<string>, i: nat)
    requires Distinct(order) && i < |order|
    ensures Without(order, order[i]) == order[..i] + order[i + 1..]
  {
    hide Without, Distinct;
    DistinctAround(order, i);
    WithoutBetween(order[..i], order[i], order[i + 1..]);
    Reassembled(order, i);
  }

  /** Bringing an id to the front keeps the list free of duplicates and adds no id but that one. */
  lemma ToFrontDistinct(order: seq<string>, id: string)
    requires Distinct(order)
    ensures Distinct(ToFront(order, id))
    ensures order != [] ==> forall x :: x in ToFront(order, id) <==> x in order || x == id
  {
    hide Without, Distinct;
    WithoutDistinct(order, id);
    WithoutMembers(order, id);
    DistinctCons(id, Without(order, id));
    EmptyDistinct();
  }

  // ---- What trimming does ---------------------------------------------------------------------

  lemma {:induction false} DropOldestSubsequence(order: seq<string>, keep: set<string>, n: nat)
    requires Distinct(order)
    ensures Subsequence(DropOldest(order, keep, n), order)
    decreases |order|
  {
    if n == 0 || order == [] {
      SubsequenceSame([], [], order);
      assert [] + order == order;
    } else {
      var init, last := order[..|order| - 1], order[|order| - 1];
      if last in keep {
        DropOldestSubsequence(init, keep, n);
      } else {
        DropOldestSubsequence(init, keep, n - 1);
        SubsequenceDistinct(DropOldest(init, keep, n - 1), init);
        assert last !in init;
      }
    }
  }

  /** An id is dropped exactly when it is not protected and fewer than n unprotected ids are less recent. */
  function Evictable(order: seq<string>, keep: set<string>): nat {
    if order == [] then 0
    else Evictable(order[..|order| - 1], keep) + if order[|order| - 1] in keep then 0 else 1
  }

  lemma {:induction false} DropOldestLength(order: seq<string>, keep: set<string>, n: nat)
    ensures |DropOldest(order, keep, n)| == |order| - if n <= Evictable(order, keep) then n else Evictable(order, keep)
    decreases |order|
  {
    if n != 0 && order != [] {
      DropOldestLength(order[..|order| - 1], keep, if order[|order| - 1] in keep then n else n - 1);
    }
  }

  lemma {:induction false} EvictableSplit(order: seq<string>, keep: set<string>, i: nat)
    requires i < |order|
    ensures Evictable(order[i + 1..], keep)
      == (if i == |order| - 1 then 0 else Evictable(order[..|order| - 1][i + 1..], keep) + if order[|order| - 1] in keep then 0 else 1)
  {
    if i < |order| - 1 {
      var tail := order[i + 1..];
      assert tail[..|tail| - 1] == order[..|order| - 1][i + 1..];
    }
  }

  lemma {:induction false} DroppedExactly(order: seq<string>, keep: set<string>, n: nat, i: nat)
    requires Distinct(order) && i < |order|
    ensures order[i] in DropOldest(order, keep, n) <==> order[i] in keep || Evictable(order[i + 1..], keep) >= n
    decreases |order|
  {
    hide Subsequence, Evictable;
    if n == 0 {
      assert order[i] in order;
    } else {
      var init, last := order[..|order| - 1], order[|order| - 1];
      var m := if last in keep then n else n - 1;
      DropOldestSubsequence(init, keep, m);
      SubsequenceDistinct(DropOldest(init, keep, m), init);
      EvictableSplit(order, keep, i);
      if i == |order| - 1 {
        assert last !in init;
      } else {
        assert init[i] == order[i] && order[i] != last;
        DroppedExactly(init, keep, m, i);
      }
    }
  }

  /** Trimming keeps the order, never drops a protected id, drops an id only if every less recent
      unprotected id goes too, and stops when the capacity is met or only protected ids are left. */
  lemma TrimEvictsExactly(order: seq<string>, keep: set<string>, capacity: nat)
    requires Distinct(order)
    ensures var kept := Trimmed(order, keep, capacity);
      && Subsequence(kept, order) && Distinct(kept)
      && (forall id :: id in order && id in keep ==> id in kept)
      && (forall i, j :: 0 <= i < j < |order| && order[i] !in kept && order[j] !in keep ==> order[j] !in kept)
      && (|order| <= capacity ==> kept == order)
      && (|order| > capacity ==> |kept| >= capacity)
      && (|kept| > capacity ==> forall id :: id in kept ==> id in keep)
  {
    hide DropOldest, Subsequence, Evictable;
    var n := if |order| > capacity then |order| - capacity else 0;
    var kept := Trimmed(order, keep, capacity);
    DropOldestSubsequence(order, keep, n);
    SubsequenceDistinct(kept, order);
    DropOldestLength(order, keep, n);
    forall i | 0 <= i < |order| ensures order[i] in kept <==> order[i] in keep || Evictable(order[i + 1..], keep) >= n {
      DroppedExactly(order, keep, n, i);
    }
    forall i, j | 0 <= i < j < |order| && order[i] !in kept && order[j] !in keep ensures order[j] !in kept {
      EvictableTail(order, keep, i, j);
    }
    if |kept| > capacity {
      forall id | id in kept ensures id in keep {
        var i :| 0 <= i < |order| && order[i] == id;
        if id !in keep {
          EvictableFrom(order, keep, i);
        }
      }
    }
    if |order| <= capacity {
      NothingDropped(order, keep);
    }
  }

  lemma NothingDropped(order: seq<string>, keep: set<string>)
    ensures DropOldest(order, keep, 0) == order
  {
  }

  lemma {:induction false} EvictableAppend(a: seq<string>, b: seq<string>, keep: set<string>)
    ensures Evictable(a + b, keep) == Evictable(a, keep) + Evictable(b, keep)
    decreases |b|
  {
    if b == [] {
      assert a + b == a;
    } else {
      EvictableAppend(a, b[..|b| - 1], keep);
      assert (a + b)[..|a + b| - 1] == a + b[..|b| - 1];
    }
  }

  lemma EvictableTail(order: seq<string>, keep: set<string>, i: nat, j: nat)
    requires i <= j < |order|
    ensures Evictable(order[j + 1..], keep) <= Evictable(order[i + 1..], keep)
  {
    assert order[i + 1..] == order[i + 1..j + 1] + order[j + 1..];
    EvictableAppend(order[i + 1..j + 1], order[j + 1..], keep);
  }

  lemma EvictableFrom(order: seq<string>, keep: set<string>, i: nat)
    requires i < |order| && order[i] !in keep
    ensures Evictable(order[i + 1..], keep) < Evictable(order, keep)
  {
    assert order == order[..i] + ([order[i]] + order[i + 1..]);
    EvictableAppend(order[..i], [order[i]] + order[i + 1..], keep);
    EvictableAppend([order[i]], order[i + 1..], keep);
    assert Evictable([order[i]], keep) == 1;
  }
}
