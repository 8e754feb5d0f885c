/**
 * The `reorder` helper shared by the list demos: copy the list, splice the
 * element at `startIndex` out of the copy and splice it back in at
 * `endIndex`.
 *
 * The specification is the sequence function `Moved`, built from the two
 * splice steps `Removed` and `Inserted`; `Shifted` is an independent,
 * element-by-element description of the same result. The implementation
 * `Reorder` works on a fresh array the way the two `splice` calls do,
 * shifting elements one slot at a time.
 */
module SpliceReorder {

  /** `s.splice(i, 1)`: the sequence without its element at `i`. */
  function Removed<T>(s: seq<T>, i: nat): (r: seq<T>)
    requires i < |s|
    ensures |r| == |s| - 1
    ensures forall k :: 0 <= k < |r| ==> r[k] == if k < i then s[k] else s[k + 1]
  {
    s[..i] + s[i + 1..]
  }

  /** `s.splice(i, 0, x)`: the sequence with `x` placed at position `i`. */
  function Inserted<T>(s: seq<T>, i: nat, x: T): (r: seq<T>)
    requires i <= |s|
    ensures |r| == |s| + 1 && r[i] == x
    ensures forall k :: 0 <= k < |r| && k != i ==> r[k] == if k < i then s[k] else s[k - 1]
  {
    s[..i] + [x] + s[i..]
  }

  /** What `reorder(s, from, to)` returns for in-range indices. */
  function Moved<T>(s: seq<T>, from: nat, to: nat): (r: seq<T>)
    requires from < |s| && to < |s|
    ensures |r| == |s|
  {
    Inserted(Removed(s, from), to, s[from])
  }

  /**
   * Reference description of a move, one position at a time: the moved
   * element sits at `to`, the elements between the two positions shift by
   * one towards `from`, and all others stay where they were.
   */
  function Shifted<T>(s: seq<T>, from: nat, to: nat): (r: seq<T>)
    requires from < |s| && to < |s|
    ensures |r| == |s|
  {
    seq(|s|, k requires 0 <= k < |s| =>
      if k == to then s[from]
      else if from <= k < to then s[k + 1]
      else if to < k <= from then s[k - 1]
      else s[k])
  }

  /** The splice-based move agrees with the position-by-position description. */
  lemma MovedIsShifted<T>(s: seq<T>, from: nat, to: nat)
    requires from < |s| && to < |s|
    ensures Moved(s, from, to) == Shifted(s, from, to)
  {
    var m, r := Moved(s, from, to), Removed(s, from);
    assert |m| == |s|;
    forall k | 0 <= k < |s|
      ensures m[k] == Shifted(s, from, to)[k]
    {
      if k < to {
        assert m[k] == r[k];
      } else if k > to {
        assert m[k] == r[k - 1];
      }
    }
  }

  /** A move keeps the length and the elements: it is a permutation. */
  lemma MovedIsPermutation<T>(s: seq<T>, from: nat, to: nat)
    requires from < |s| && to < |s|
    ensures |Moved(s, from, to)| == |s|
    ensures multiset(Moved(s, from, to)) == multiset(s)
  {
    var r := Removed(s, from);
    assert s == s[..from] + [s[from]] + s[from + 1..];
    assert r == r[..to] + r[to..];
    calc {
      multiset(Moved(s, from, to));
      multiset(r[..to]) + multiset{s[from]} + multiset(r[to..]);
      multiset(r) + multiset{s[from]};
      multiset(s[..from]) + multiset(s[from + 1..]) + multiset{s[from]};
      multiset(s);
    }
  }

  /** The moved element lands at the destination index. */
  lemma MovedLandsAt<T>(s: seq<T>, from: nat, to: nat)
    requires from < |s| && to < |s|
    ensures Moved(s, from, to)[to] == s[from]
  {
  }

  /**
   * Taking the moved element out of both the input and the result leaves the
   * same sequence: every other element keeps its relative order.
   */
  lemma MovedKeepsOthers<T>(s: seq<T>, from: nat, to: nat)
    requires from < |s| && to < |s|
    ensures |Moved(s, from, to)| == |s|
    ensures Removed(Moved(s, from, to), to) == Removed(s, from)
  {
    var r := Removed(s, from);
    var m := Moved(s, from, to);
    assert m[..to] == r[..to];
    assert m[to + 1..] == r[to..];
    assert r == r[..to] + r[to..];
  }

  /** Moving an element onto its own position changes nothing (no deletion). */
  lemma MovedSameIndex<T>(s: seq<T>, i: nat)
    requires i < |s|
    ensures Moved(s, i, i) == s
  {
    assert s == s[..i] + [s[i]] + s[i + 1..];
    assert Removed(s, i)[..i] == s[..i];
    assert Removed(s, i)[i..] == s[i + 1..];
  }

  /** Moving `from -> to` and then `to -> from` restores the original list. */
  lemma MovedBack<T>(s: seq<T>, from: nat, to: nat)
    requires from < |s| && to < |s|
    ensures |Moved(s, from, to)| == |s|
    ensures Moved(Moved(s, from, to), to, from) == s
  {
    var m := Moved(s, from, to);
    MovedKeepsOthers(s, from, to);
    MovedLandsAt(s, from, to);
    var r := Removed(m, to);
    assert r == Removed(s, from);
    assert Moved(m, to, from) == Inserted(r, from, s[from]);
    assert s == s[..from] + [s[from]] + s[from + 1..];
    assert r[..from] == s[..from];
    assert r[from..] == s[from + 1..];
  }

  /**
   * `const [removed] = a.splice(i, 1)` on the first `len` slots of `a`: the
   * element at `i` is returned and the ones after it move down by one.
   */
  method SpliceOut<T>(a: array<T>, len: nat, i: nat) returns (removed: T)
    requires i < len <= a.Length
    modifies a
    ensures removed == old(a[i])
    ensures a[..len - 1] == Removed(old(a[..len]), i)
  {
    ghost var before := a[..len];
    removed := a[i];
    var k := i;
    while k < len - 1
      invariant i <= k <= len - 1
      invariant forall j :: 0 <= j < i ==> a[j] == old(a[j])
      invariant forall j :: i <= j < k ==> a[j] == old(a[j + 1])
      invariant forall j :: k <= j < a.Length ==> a[j] == old(a[j])
    {
      a[k] := a[k + 1];
      k := k + 1;
    }
    forall j | 0 <= j < len - 1
      ensures a[..len - 1][j] == Removed(before, i)[j]
    {
      if j < i {
        assert Removed(before, i)[j] == before[j];
      } else {
        assert Removed(before, i)[j] == before[j + 1];
      }
    }
  }

  /**
   * `a.splice(i, 0, x)` on the first `len` slots of `a`: the elements from
   * `i` on move up by one and `x` takes slot `i`.
   */
  method SpliceIn<T>(a: array<T>, len: nat, i: nat, x: T)
    requires i <= len < a.Length
    modifies a
    ensures a[..len + 1] == Inserted(old(a[..len]), i, x)
  {
    ghost var before := a[..len];
    var k := len;
    while k > i
      invariant i <= k <= len
      invariant forall j :: 0 <= j <= k ==> a[j] == old(a[j])
      invariant forall j :: k < j <= len ==> a[j] == old(a[j - 1])
      invariant forall j :: len < j < a.Length ==> a[j] == old(a[j])
    {
      a[k] := a[k - 1];
      k := k - 1;
    }
    a[i] := x;
    forall j | 0 <= j <= len
      ensures a[..len + 1][j] == Inserted(before, i, x)[j]
    {
      if j < i {
        assert Inserted(before, i, x)[j] == before[j];
      } else if j > i {
        assert Inserted(before, i, x)[j] == before[j - 1];
      }
    }
  }

  /**
   * `reorder(list, startIndex, endIndex)` without a short-circuit: the work
   * happens on a copy (`Array.from`), so the input array is left untouched
   * (the method may not modify it) and a newly allocated array is returned.
   */
  method Reorder<T>(list: array<T>, startIndex: nat, endIndex: nat) returns (result: array<T>)
    requires startIndex < list.Length && endIndex < list.Length
    ensures fresh(result)
    ensures result[..] == Moved(list[..], startIndex, endIndex)
  {
    result := new T[list.Length](k requires 0 <= k < list.Length reads list => list[k]);
    assert result[..] == list[..];
    var removed := SpliceOut(result, result.Length, startIndex);
    ghost var shortened := result[..result.Length - 1];
    assert shortened == Removed(list[..], startIndex);
    SpliceIn(result, result.Length - 1, endIndex, removed);
    assert result[..] == result[..result.Length] == Inserted(shortened, endIndex, removed);
  }
}
