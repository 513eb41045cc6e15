/** Lists of ids: order kept while leaving some out, and freedom from duplicates. */
module Orders {
  /** a can be read off b from left to right. */
  predicate Subsequence(a: seq<string>, b: seq<string>)
    decreases |b|
  {
    || a == []
    || (b != [] && ((a[|a| - 1] == b[|b| - 1] && Subsequence(a[..|a| - 1], b[..|b| - 1]))
                    || Subsequence(a, b[..|b| - 1])))
  }

  predicate Distinct(ids: seq<string>) {
    forall i, j :: 0 <= i < j < |ids| ==> ids[i] != ids[j]
  }

  lemma EmptyDistinct()
    ensures Distinct([])
  {
  }

  lemma DistinctSnoc(ids: seq<string>, last: string)
    ensures Distinct(ids + [last]) <==> Distinct(ids) && last !in ids
  {
    var all := ids + [last];
    assert forall i :: 0 <= i < |ids| ==> all[i] == ids[i];
    assert all[|ids|] == last;
  }

  lemma DistinctCons(first: string, ids: seq<string>)
    ensures Distinct([first] + ids) <==> Distinct(ids) && first !in ids
  {
    var all := [first] + ids;
    assert forall i :: 0 <= i < |ids| ==> all[i + 1] == ids[i];
    assert all[0] == first;
  }

  lemma SubsequenceSnoc(a: seq<string>, b: seq<string>, x: string)
    requires Subsequence(a, b)
    ensures Subsequence(a, b + [x])
    ensures Subsequence(a + [x], b + [x])
  {
    assert (b + [x])[..|b|] == b && (a + [x])[..|a|] == a;
  }

  lemma {:induction false} SubsequenceSkip(a: seq<string>, b: seq<string>, c: seq<string>)
    requires Subsequence(a, b)
    ensures Subsequence(a, b + c)
    decreases |c|
  {
    if c == [] {
      assert b + c == b;
    } else {
      var init, last := c[..|c| - 1], c[|c| - 1];
      SubsequenceSkip(a, b, init);
      SubsequenceSnoc(a, b + init, last);
      assert b + c == (b + init) + [last];
    }
  }

  lemma {:induction false} SubsequenceSame(a: seq<string>, b: seq<string>, c: seq<string>)
    requires Subsequence(a, b)
    ensures Subsequence(a + c, b + c)
    decreases |c|
  {
    if c == [] {
      assert a + c == a && b + c == b;
    } else {
      var init, last := c[..|c| - 1], c[|c| - 1];
      SubsequenceSame(a, b, init);
      SubsequenceSnoc(a + init, b + init, last);
      assert a + c == (a + init) + [last] && b + c == (b + init) + [last];
    }
  }

  lemma {:induction false} SubsequenceDistinct(a: seq<string>, b: seq<string>)
    requires Subsequence(a, b) && Distinct(b)
    ensures Distinct(a)
    ensures forall x :: x in a ==> x in b
    decreases |b|
  {
    if a != [] {
      var b' := b[..|b| - 1];
      if a[|a| - 1] == b[|b| - 1] && Subsequence(a[..|a| - 1], b') {
        var a' := a[..|a| - 1];
        SubsequenceDistinct(a', b');
        assert a == a' + [a[|a| - 1]];
        assert forall i :: 0 <= i < |b'| ==> b'[i] != b[|b| - 1];
        assert forall i :: 0 <= i < |a'| ==> a'[i] in a' && a'[i] in b';
      } else {
        SubsequenceDistinct(a, b');
      }
    }
  }

  lemma {:induction false} SubsequenceTransitive(a: seq<string>, b: seq<string>, c: seq<string>)
    requires Subsequence(a, b) && Subsequence(b, c)
    ensures Subsequence(a, c)
    decreases |b| + |c|
  {
    if a != [] {
      var b', c' := b[..|b| - 1], c[..|c| - 1];
      if b[|b| - 1] == c[|c| - 1] && Subsequence(b', c') {
        if a[|a| - 1] == b[|b| - 1] && Subsequence(a[..|a| - 1], b') {
          SubsequenceTransitive(a[..|a| - 1], b', c');
        } else {
          SubsequenceTransitive(a, b', c');
        }
      } else {
        SubsequenceTransitive(a, b, c');
      }
    }
  }
}
