/** The bounded-array helpers of the pending-key registry. A C array of capacity N is a value
    sequence of length N; `size` is the number of live entries at its front. The pure functions
    give the sequence view the registry works with, and each loop is proved to refine it. */
module Arrays {
  import opened Types

  /** The identities of a run of pending keys, in order. */
  function Refs(s: seq<PendingKey>): (r: seq<KeyRef>)
    ensures |r| == |s|
    ensures forall i | 0 <= i < |s| :: r[i] == s[i].keyRef
  {
    seq(|s|, i requires 0 <= i < |s| => s[i].keyRef)
  }

  /** First position of `ref` among the keys, or -1. */
  function Position(s: seq<PendingKey>, ref: KeyRef): (p: int)
    ensures -1 <= p < |s|
    ensures p == -1 <==> forall i | 0 <= i < |s| :: s[i].keyRef != ref
    ensures 0 <= p ==> s[p].keyRef == ref && forall i | 0 <= i < p :: s[i].keyRef != ref
  {
    if |s| == 0 then -1
    else if s[0].keyRef == ref then 0
    else
      var p := Position(s[1..], ref);
      if p < 0 then -1 else p + 1
  }

  /** Lookup compares identities only: timing and the activation flag play no part. */
  lemma {:induction false} PositionIgnoresTiming(s: seq<PendingKey>, t: seq<PendingKey>, ref: KeyRef)
    requires Refs(s) == Refs(t)
    ensures Position(s, ref) == Position(t, ref)
  {
    if |s| > 0 {
      assert s[0].keyRef == t[0].keyRef;
      assert Refs(s[1..]) == Refs(s)[1..];
      assert Refs(t[1..]) == Refs(t)[1..];
      PositionIgnoresTiming(s[1..], t[1..], ref);
    }
  }

  /** The sequence with entry `i` taken out and the rest kept in order. */
  function Delete<T>(s: seq<T>, i: nat): (r: seq<T>)
    requires i < |s|
    ensures |r| == |s| - 1
    ensures forall j | 0 <= j < |r| :: r[j] == if j < i then s[j] else s[j + 1]
  {
    s[..i] + s[i + 1..]
  }

  /** arrays.c IndexOf: linear search over the live entries. */
  method IndexOf(keys: seq<PendingKey>, ref: KeyRef, size: nat) returns (index: int)
    requires size <= |keys|
    ensures -1 <= index < size
    ensures index == -1 <==> forall i | 0 <= i < size :: keys[i].keyRef != ref
    ensures 0 <= index ==> keys[index].keyRef == ref
    ensures index == Position(keys[..size], ref)
  {
    var i := 0;
    while i < size
      invariant 0 <= i <= size
      invariant forall j | 0 <= j < i :: keys[j].keyRef != ref
    {
      if keys[i].keyRef == ref {
        return i;
      }
      i := i + 1;
    }
    return -1;
  }

  /** arrays.c RemoveAt: shifts `keys[index + 1 .. size)` one slot left. The last live slot keeps
      its stale copy; the caller decrements the count. */
  method RemoveAt(keys: seq<PendingKey>, index: nat, size: nat) returns (r: seq<PendingKey>)
    requires size <= |keys|
    ensures |r| == |keys|
    ensures forall j | index <= j < size - 1 :: r[j] == keys[j + 1]
    ensures forall j | 0 <= j < |keys| && !(index <= j < size - 1) :: r[j] == keys[j]
    ensures index < size ==> r[..size - 1] == Delete(keys[..size], index)
  {
    r := keys;
    var i: int := index;
    while i < size - 1
      invariant index <= i
      invariant i <= size - 1 || i == index
      invariant |r| == |keys|
      invariant forall j | 0 <= j < |keys| && !(index <= j < i) :: r[j] == keys[j]
      invariant forall j | index <= j < i :: r[j] == keys[j + 1]
    {
      r := r[i := r[i + 1]];
      i := i + 1;
    }
    if index < size {
      assert forall j | 0 <= j < size - 1 :: r[j] == Delete(keys[..size], index)[j];
    }
  }

  /** arrays.c InsertAt: `size` is read as the length after the insertion, so entries
      `index .. size - 2` move one slot right and the old `keys[size - 1]` is overwritten.
      With `index == size` it is a plain append into slot `size`. */
  method InsertAt(keys: seq<PendingKey>, newKey: PendingKey, index: nat, size: nat) returns (r: seq<PendingKey>)
    requires index < |keys| && size <= |keys|
    ensures |r| == |keys|
    ensures r[index] == newKey
    ensures forall j | index < j < size :: r[j] == keys[j - 1]
    ensures forall j | 0 <= j < |keys| && j != index && !(index < j < size) :: r[j] == keys[j]
    ensures index == size ==> r[..size + 1] == keys[..size] + [newKey]
    ensures index < size ==> r[..size] == keys[..index] + [newKey] + keys[index..size - 1]
  {
    r := keys;
    var i: int := size - 1;
    while i > index
      invariant -1 <= i <= size - 1
      invariant index <= i || i == size - 1
      invariant |r| == |keys|
      invariant forall j | 0 <= j < |keys| && !(i < j < size) :: r[j] == keys[j]
      invariant forall j | i < j < size :: r[j] == keys[j - 1]
    {
      r := r[i := r[i - 1]];
      i := i - 1;
    }
    r := r[index := newKey];
    if index == size {
      assert forall j | 0 <= j < size + 1 :: r[j] == (keys[..size] + [newKey])[j];
    }
    if index < size {
      assert forall j | 0 <= j < size :: r[j] == (keys[..index] + [newKey] + keys[index..size - 1])[j];
    }
  }

  /** arrays.c Remove: removes the first entry with the identity, if any, and reports whether it did. */
  method Remove(keys: seq<PendingKey>, ref: KeyRef, size: nat) returns (removed: bool, r: seq<PendingKey>)
    requires size <= |keys|
    ensures |r| == |keys|
    ensures removed <==> exists i | 0 <= i < size :: keys[i].keyRef == ref
    ensures !removed ==> r == keys
    ensures removed ==> 0 < size && r[..size - 1] == Delete(keys[..size], Position(keys[..size], ref))
    ensures forall j | 0 <= j < |keys| && size <= j + 1 :: r[j] == keys[j]
  {
    var index := IndexOf(keys, ref, size);
    if index >= 0 {
      r := RemoveAt(keys, index, size);
      return true, r;
    }
    return false, keys;
  }
}
