/** Order-preserving filters and reversals of pending-key runs, in the shape the resolver's loops
    take them: the last entry is the one a descending loop meets first. */
module Filtering {
  import opened Types
  import opened Arrays
  import opened KeyboardState

  /** The entries of `s` that satisfy `keep`, in their original order. */
  function Filter(s: seq<PendingKey>, keep: PendingKey -> bool): (r: seq<PendingKey>)
    ensures |r| <= |s|
    decreases |s|
  {
    if |s| == 0 then []
    else
      var last := s[|s| - 1];
      Filter(s[..|s| - 1], keep) + (if keep(last) then [last] else [])
  }

  /** The filter keeps exactly the entries that satisfy `keep`. */
  lemma {:induction false} FilterMembers(s: seq<PendingKey>, keep: PendingKey -> bool)
    ensures forall k | k in Filter(s, keep) :: k in s && keep(k)
    ensures forall k | k in s && keep(k) :: k in Filter(s, keep)
    decreases |s|
  {
    if |s| > 0 {
      var last := s[|s| - 1];
      FilterMembers(s[..|s| - 1], keep);
      assert forall k | k in s :: k in s[..|s| - 1] || k == last;
    }
  }

  /** The entries of `s` in the opposite order. */
  function Reverse(s: seq<PendingKey>): (r: seq<PendingKey>)
    ensures |r| == |s|
    ensures forall i | 0 <= i < |s| :: r[i] == s[|s| - 1 - i]
    decreases |s|
  {
    if |s| == 0 then [] else [s[|s| - 1]] + Reverse(s[..|s| - 1])
  }

  /** Every entry of a filter, by position, satisfies the predicate. */
  lemma {:induction false} FilterSatisfies(s: seq<PendingKey>, keep: PendingKey -> bool)
    ensures forall q | 0 <= q < |Filter(s, keep)| :: keep(Filter(s, keep)[q])
    decreases |s|
  {
    if |s| > 0 {
      FilterSatisfies(s[..|s| - 1], keep);
    }
  }

  lemma AppendAssoc(a: seq<PendingKey>, b: seq<PendingKey>, c: seq<PendingKey>)
    ensures (a + b) + c == a + (b + c)
  {
  }

  /** Filtering reads `keep` only on the entries themselves. */
  lemma {:induction false} FilterCongruence(s: seq<PendingKey>, p: PendingKey -> bool, q: PendingKey -> bool)
    requires forall k | k in s :: p(k) == q(k)
    ensures Filter(s, p) == Filter(s, q)
    decreases |s|
  {
    if |s| > 0 {
      assert forall k | k in s[..|s| - 1] :: k in s;
      FilterCongruence(s[..|s| - 1], p, q);
    }
  }

  /** One more entry at the end of the input adds at most that entry at the end of the output. */
  lemma FilterSnoc(s: seq<PendingKey>, i: nat, keep: PendingKey -> bool)
    requires i < |s|
    ensures Filter(s[..i + 1], keep) == Filter(s[..i], keep) + (if keep(s[i]) then [s[i]] else [])
  {
    assert s[..i + 1][..i] == s[..i];
  }

  /** Filtering never creates a duplicate identity. */
  lemma {:induction false} FilterDistinct(s: seq<PendingKey>, keep: PendingKey -> bool)
    requires Distinct(Refs(s))
    ensures Distinct(Refs(Filter(s, keep)))
    decreases |s|
  {
    if |s| > 0 {
      var init := s[..|s| - 1];
      var last := s[|s| - 1];
      assert Refs(init) == Refs(s)[..|s| - 1];
      FilterDistinct(init, keep);
      FilterMembers(init, keep);
      var f := Filter(init, keep);
      if keep(last) {
        var r := Refs(f + [last]);
        forall i, j | 0 <= i < j < |r|
          ensures r[i] != r[j]
        {
          if j == |f| {
            assert f[i] in init;
            var p :| 0 <= p < |init| && init[p] == f[i];
            assert Refs(s)[p] == r[i] && Refs(s)[|s| - 1] == r[j];
          } else {
            assert r[i] == Refs(f)[i] && r[j] == Refs(f)[j];
          }
        }
      }
    }
  }

  /** The two parts of a concatenation are distinct and share nothing exactly when the whole is distinct. */
  lemma DistinctConcat(a: seq<KeyRef>, b: seq<KeyRef>)
    ensures Distinct(a + b) <==> Distinct(a) && Distinct(b) && (forall x | x in a :: x !in b)
  {
    var s := a + b;
    if Distinct(s) {
      assert forall i | 0 <= i < |a| :: s[i] == a[i];
      forall i, j | 0 <= i < j < |b|
        ensures b[i] != b[j]
      {
        assert s[|a| + i] == b[i] && s[|a| + j] == b[j];
      }
      forall i, j | 0 <= i < |a| && 0 <= j < |b|
        ensures a[i] != b[j]
      {
        assert s[i] == a[i] && s[|a| + j] == b[j];
      }
    }
    if Distinct(a) && Distinct(b) && (forall x | x in a :: x !in b) {
      forall i, j | 0 <= i < j < |s|
        ensures s[i] != s[j]
      {
        if j < |a| {
          assert s[i] == a[i] && s[j] == a[j];
        } else if i >= |a| {
          assert s[i] == b[i - |a|] && s[j] == b[j - |a|];
        } else {
          assert s[i] == a[i] && s[j] == b[j - |a|];
          assert a[i] in a && b[j - |a|] in b;
        }
      }
    }
  }

  /** An identity among the references of a run belongs to one of its entries. */
  lemma RefsMembers(s: seq<PendingKey>, x: KeyRef)
    ensures x in Refs(s) <==> exists k | k in s :: k.keyRef == x
  {
    if x in Refs(s) {
      var i :| 0 <= i < |s| && Refs(s)[i] == x;
      assert s[i] in s;
    }
  }
}
