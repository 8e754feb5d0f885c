/**
 * The per-zone order list of the DndKit compatibility shim: entries
 * `{id, index}` kept sorted by index, the operations `register` and
 * `unregister` build them from (`filter` on the id, `push`, a stable `sort`
 * by index) and the id projection `map(e => e.id)`.
 */
module OrderTable {

  /** `{ id: draggableId, index }`: a draggable and the position it rendered at. */
  datatype OrderEntry = OrderEntry(id: string, index: int)

  /** `list.map((e) => e.id)` */
  function Ids(s: seq<OrderEntry>): seq<string>
  {
    seq(|s|, k requires 0 <= k < |s| => s[k].id)
  }

  /** Indices never decrease along the list. */
  predicate Sorted(s: seq<OrderEntry>)
  {
    forall j, k :: 0 <= j < k < |s| ==> s[j].index <= s[k].index
  }

  /** No id occurs twice in the list. */
  predicate NoDupIds(s: seq<OrderEntry>)
  {
    forall j, k :: 0 <= j < k < |s| ==> s[j].id != s[k].id
  }

  /** Some entry of the list carries id `d`. */
  predicate HasId(s: seq<OrderEntry>, d: string)
  {
    exists k :: 0 <= k < |s| && s[k].id == d
  }

  lemma IdsHasId(s: seq<OrderEntry>, d: string)
    ensures d in Ids(s) <==> HasId(s, d)
  {
    if HasId(s, d) {
      var k :| 0 <= k < |s| && s[k].id == d;
      assert Ids(s)[k] == d;
    }
  }

  /**
   * `list.filter((e) => e.id !== d)`: exactly the entries whose id is not `d`
   * survive.
   */
  function FilterOut(s: seq<OrderEntry>, d: string): (r: seq<OrderEntry>)
    ensures |r| <= |s|
  {
    if s == [] then []
    else (if s[0].id == d then [] else [s[0]]) + FilterOut(s[1..], d)
  }

  /** Exactly the entries whose id is not `d` survive the filter. */
  lemma {:induction false} FilterOutMembers(s: seq<OrderEntry>, d: string)
    ensures forall e :: e in FilterOut(s, d) <==> e in s && e.id != d
  {
    if s != [] {
      FilterOutMembers(s[1..], d);
      assert s == [s[0]] + s[1..];
    }
  }

  /** Filtering works piece by piece, so survivors keep their relative order. */
  lemma {:induction false} FilterOutConcat(a: seq<OrderEntry>, b: seq<OrderEntry>, d: string)
    ensures FilterOut(a + b, d) == FilterOut(a, d) + FilterOut(b, d)
  {
    if a == [] {
      assert a + b == b;
    } else {
      assert (a + b)[1..] == a[1..] + b;
      FilterOutConcat(a[1..], b, d);
    }
  }

  /** Filtering out an id the list does not hold leaves it unchanged. */
  lemma {:induction false} FilterOutAbsent(s: seq<OrderEntry>, d: string)
    requires !HasId(s, d)
    ensures FilterOut(s, d) == s
  {
    if s != [] {
      assert !HasId(s[1..], d) by {
        forall k | 0 <= k < |s[1..]| ensures s[1..][k].id != d {
          assert s[1..][k] == s[k + 1];
        }
      }
      FilterOutAbsent(s[1..], d);
    }
  }

  /** Every element of `s[1..]` stands at some position after the first. */
  lemma TailMember(s: seq<OrderEntry>, e: OrderEntry) returns (k: nat)
    requires s != [] && e in s[1..]
    ensures 0 < k < |s| && s[k] == e
  {
    var j :| 0 <= j < |s[1..]| && s[1..][j] == e;
    k := j + 1;
  }

  /** Filtering keeps a sorted list sorted. */
  lemma {:induction false} FilterOutSorted(s: seq<OrderEntry>, d: string)
    requires Sorted(s)
    ensures Sorted(FilterOut(s, d))
  {
    if s != [] {
      assert Sorted(s[1..]);
      FilterOutSorted(s[1..], d);
      var rest := FilterOut(s[1..], d);
      FilterOutMembers(s[1..], d);
      if s[0].id != d {
        forall m | 0 <= m < |rest| ensures s[0].index <= rest[m].index {
          assert rest[m] in rest;
          var k := TailMember(s, rest[m]);
          assert s[0].index <= s[k].index;
        }
        var r := [s[0]] + rest;
        assert Sorted(rest);
        forall j, m | 0 <= j < m < |r| ensures r[j].index <= r[m].index {
          if j == 0 {
            assert r[m] == rest[m - 1];
          } else {
            assert r[j] == rest[j - 1] && r[m] == rest[m - 1];
          }
        }
      }
    }
  }

  /** Filtering keeps a duplicate-free list duplicate-free. */
  lemma {:induction false} FilterOutNoDup(s: seq<OrderEntry>, d: string)
    requires NoDupIds(s)
    ensures NoDupIds(FilterOut(s, d))
  {
    if s != [] {
      assert NoDupIds(s[1..]);
      FilterOutNoDup(s[1..], d);
      var rest := FilterOut(s[1..], d);
      FilterOutMembers(s[1..], d);
      if s[0].id != d {
        forall m | 0 <= m < |rest| ensures s[0].id != rest[m].id {
          assert rest[m] in rest;
          var k := TailMember(s, rest[m]);
        }
        var r := [s[0]] + rest;
        forall j, m | 0 <= j < m < |r| ensures r[j].id != r[m].id {
          if j == 0 {
            assert r[m] == rest[m - 1];
          } else {
            assert r[j] == rest[j - 1] && r[m] == rest[m - 1];
          }
        }
      }
    }
  }

  /**
   * Where a stable sort puts a new last element `e`: after every entry at the
   * tail whose index is greater than `e.index`.
   */
  function InsertPos(s: seq<OrderEntry>, e: OrderEntry): (k: nat)
    ensures k <= |s|
    ensures forall j :: k <= j < |s| ==> s[j].index > e.index
    ensures 0 < k ==> s[k - 1].index <= e.index
  {
    if s == [] || s[|s| - 1].index <= e.index then |s|
    else InsertPos(s[..|s| - 1], e)
  }

  /** One step of a stable insertion sort: `e` goes after every entry of equal index. */
  function InsertLast(s: seq<OrderEntry>, e: OrderEntry): seq<OrderEntry>
  {
    var k := InsertPos(s, e);
    s[..k] + [e] + s[k..]
  }

  /**
   * `Array.prototype.sort((a, b) => a.index - b.index)`, a stable sort: a
   * stable insertion sort that inserts each element after the ones before it
   * with an index no greater than its own.
   */
  function SortByIndex(s: seq<OrderEntry>): seq<OrderEntry>
  {
    if s == [] then [] else InsertLast(SortByIndex(s[..|s| - 1]), s[|s| - 1])
  }

  /** Inserting adds exactly the new entry. */
  lemma InsertLastMultiset(s: seq<OrderEntry>, e: OrderEntry)
    ensures multiset(InsertLast(s, e)) == multiset(s) + multiset{e}
  {
    var k := InsertPos(s, e);
    assert s == s[..k] + s[k..];
  }

  /** Inserting into a sorted list keeps it sorted. */
  lemma InsertLastSorted(s: seq<OrderEntry>, e: OrderEntry)
    requires Sorted(s)
    ensures Sorted(InsertLast(s, e))
  {
    var k := InsertPos(s, e);
    var r := InsertLast(s, e);
    assert |r| == |s| + 1;
    forall j, m | 0 <= j < m < |r| ensures r[j].index <= r[m].index {
      if m < k {
        assert r[j] == s[j] && r[m] == s[m];
      } else if j > k {
        assert r[j] == s[j - 1] && r[m] == s[m - 1];
      } else if j == k {
        assert r[m] == s[m - 1];
      } else if m == k {
        assert r[j] == s[j];
      } else {
        assert r[j] == s[j] && r[m] == s[m - 1];
      }
    }
  }

  /** Inserting an entry whose id the list lacks keeps ids unique. */
  lemma InsertLastNoDup(s: seq<OrderEntry>, e: OrderEntry)
    requires NoDupIds(s) && !HasId(s, e.id)
    ensures NoDupIds(InsertLast(s, e))
  {
    var k := InsertPos(s, e);
    var r := InsertLast(s, e);
    assert |r| == |s| + 1;
    forall j, m | 0 <= j < m < |r| ensures r[j].id != r[m].id {
      if m < k {
        assert r[j] == s[j] && r[m] == s[m];
      } else if j > k {
        assert r[j] == s[j - 1] && r[m] == s[m - 1];
      } else if j == k {
        assert r[m] == s[m - 1];
      } else if m == k {
        assert r[j] == s[j];
      } else {
        assert r[j] == s[j] && r[m] == s[m - 1];
      }
    }
  }

  /** The stable sort returns a sorted permutation of its input. */
  lemma {:induction false} SortByIndexProps(s: seq<OrderEntry>)
    ensures Sorted(SortByIndex(s))
    ensures multiset(SortByIndex(s)) == multiset(s)
  {
    if s != [] {
      var init, last := s[..|s| - 1], s[|s| - 1];
      var sorted := SortByIndex(init);
      assert SortByIndex(s) == InsertLast(sorted, last);
      SortByIndexProps(init);
      InsertLastSorted(sorted, last);
      InsertLastMultiset(sorted, last);
      assert s == init + [last];
      assert multiset(s) == multiset(init) + multiset{last};
    }
  }

  /** Two lists with the same elements hold the same ids. */
  lemma HasIdSameElements(s: seq<OrderEntry>, t: seq<OrderEntry>, d: string)
    requires multiset(s) == multiset(t)
    ensures HasId(s, d) ==> HasId(t, d)
  {
    if HasId(s, d) {
      var k :| 0 <= k < |s| && s[k].id == d;
      assert s[k] in multiset(t);
      var j :| 0 <= j < |t| && t[j] == s[k];
    }
  }

  /** The stable sort keeps ids unique. */
  lemma {:induction false} SortByIndexNoDup(s: seq<OrderEntry>)
    requires NoDupIds(s)
    ensures NoDupIds(SortByIndex(s))
  {
    if s != [] {
      var init, last := s[..|s| - 1], s[|s| - 1];
      assert NoDupIds(init);
      SortByIndexNoDup(init);
      SortByIndexProps(init);
      assert !HasId(init, last.id);
      HasIdSameElements(SortByIndex(init), init, last.id);
      InsertLastNoDup(SortByIndex(init), last);
    }
  }

  /** Sorting an already sorted list leaves it as it is. */
  lemma {:induction false} SortByIndexSorted(s: seq<OrderEntry>)
    requires Sorted(s)
    ensures SortByIndex(s) == s
  {
    if s != [] {
      var init := s[..|s| - 1];
      assert Sorted(init);
      SortByIndexSorted(init);
      assert InsertPos(init, s[|s| - 1]) == |init|;
      assert init + [s[|s| - 1]] == s;
    }
  }

  /** Sorting a list with one more entry pushed is one insertion step. */
  lemma SortPushed(s: seq<OrderEntry>, e: OrderEntry)
    ensures SortByIndex(s + [e]) == InsertLast(SortByIndex(s), e)
  {
    assert (s + [e])[..|s|] == s;
  }

  /**
   * The list `register(zone, d, i)` stores for the zone: the old entries of
   * `d` filtered out, the new entry pushed, the result sorted by index.
   */
  function RegisterList(s: seq<OrderEntry>, d: string, i: int): seq<OrderEntry>
  {
    SortByIndex(FilterOut(s, d) + [OrderEntry(d, i)])
  }

  /**
   * After registering, the zone's list is sorted and holds exactly the old
   * entries other than `d`'s plus the new one; in particular its only entry
   * for `d` is the new one, carrying index `i`.
   */
  lemma RegisterListProps(s: seq<OrderEntry>, d: string, i: int)
    ensures Sorted(RegisterList(s, d, i))
    ensures multiset(RegisterList(s, d, i)) == multiset(FilterOut(s, d)) + multiset{OrderEntry(d, i)}
    ensures OrderEntry(d, i) in RegisterList(s, d, i)
    ensures forall e :: e in RegisterList(s, d, i) <==> e == OrderEntry(d, i) || (e in s && e.id != d)
  {
    var w := FilterOut(s, d);
    var e := OrderEntry(d, i);
    var r := RegisterList(s, d, i);
    FilterOutMembers(s, d);
    SortByIndexProps(w + [e]);
    assert multiset(w + [e]) == multiset(w) + multiset{e};
    forall x ensures x in r <==> x == e || (x in s && x.id != d) {
      assert x in r <==> x in multiset(r);
      assert x in w <==> x in multiset(w);
    }
  }

  /** Registering keeps a duplicate-free list duplicate-free, with one entry for `d`. */
  lemma RegisterListNoDup(s: seq<OrderEntry>, d: string, i: int)
    requires NoDupIds(s)
    ensures NoDupIds(RegisterList(s, d, i))
  {
    var w := FilterOut(s, d);
    var e := OrderEntry(d, i);
    FilterOutNoDup(s, d);
    FilterOutMembers(s, d);
    assert NoDupIds(w + [e]) by {
      forall j, m | 0 <= j < m < |w + [e]| ensures (w + [e])[j].id != (w + [e])[m].id {
        if m == |w| {
          assert w[j] in w;
        }
      }
    }
    SortByIndexNoDup(w + [e]);
  }

  /**
   * On a sorted list, registering is stable: the new entry follows every
   * surviving entry whose index is at most `i` and precedes the rest.
   */
  lemma RegisterListStable(s: seq<OrderEntry>, d: string, i: int)
    requires Sorted(s)
    ensures exists k: nat ::
              k <= |FilterOut(s, d)| &&
              StableSplit(RegisterList(s, d, i), FilterOut(s, d), OrderEntry(d, i), k)
  {
    var w := FilterOut(s, d);
    var e := OrderEntry(d, i);
    FilterOutSorted(s, d);
    SortPushed(w, e);
    SortByIndexSorted(w);
    var k := InsertLastStable(w, e);
    assert RegisterList(s, d, i) == InsertLast(w, e);
    assert StableSplit(RegisterList(s, d, i), w, e, k);
  }

  /** In a sorted list, `InsertLast` puts `e` after its equals and before larger indices. */
  lemma InsertLastStable(w: seq<OrderEntry>, e: OrderEntry) returns (k: nat)
    requires Sorted(w)
    ensures k <= |w| && StableSplit(InsertLast(w, e), w, e, k)
  {
    k := InsertPos(w, e);
    forall j | 0 <= j < k ensures w[j].index <= e.index {
      assert w[j].index <= w[k - 1].index;
    }
  }

  /**
   * `r` is `w` with `e` placed at position `k`, after every entry of `w`
   * whose index is at most `e.index` and before every entry whose index is
   * greater.
   */
  predicate StableSplit(r: seq<OrderEntry>, w: seq<OrderEntry>, e: OrderEntry, k: nat)
    requires k <= |w|
  {
    && r == w[..k] + [e] + w[k..]
    && (forall j :: 0 <= j < k ==> w[j].index <= e.index)
    && (forall j :: k <= j < |w| ==> w[j].index > e.index)
  }

  /** Filtering out the id of an entry just inserted into a list without it undoes the insertion. */
  lemma FilterOutInserted(s: seq<OrderEntry>, e: OrderEntry)
    requires !HasId(s, e.id)
    ensures FilterOut(InsertLast(s, e), e.id) == s
  {
    var d, k := e.id, InsertPos(s, e);
    var a, b := s[..k], s[k..];
    assert InsertLast(s, e) == a + [e] + b;
    SliceLacksId(s, d, 0, k);
    SliceLacksId(s, d, k, |s|);
    assert s[0..k] == a && s[k..|s|] == b;
    FilterOutAbsent(a, d);
    FilterOutAbsent(b, d);
    FilterOutAround(a, e, b);
    assert s == a + b;
  }

  /** A slice of a list without id `d` has no entry for `d` either. */
  lemma SliceLacksId(s: seq<OrderEntry>, d: string, lo: nat, hi: nat)
    requires lo <= hi <= |s| && !HasId(s, d)
    ensures !HasId(s[lo..hi], d)
  {
    forall j | 0 <= j < hi - lo ensures s[lo..hi][j].id != d {
      assert s[lo..hi][j] == s[lo + j];
    }
  }

  /** Filtering `e`'s id out of `a + [e] + b` drops `e` when `a` and `b` lack that id. */
  lemma FilterOutAround(a: seq<OrderEntry>, e: OrderEntry, b: seq<OrderEntry>)
    requires FilterOut(a, e.id) == a && FilterOut(b, e.id) == b
    ensures FilterOut(a + [e] + b, e.id) == a + b
  {
    assert FilterOut([e], e.id) == [];
    FilterOutConcat(a + [e], b, e.id);
    FilterOutConcat(a, [e], e.id);
  }

  /** Registering the same entry twice gives the list registering it once gives. */
  lemma RegisterListTwice(s: seq<OrderEntry>, d: string, i: int)
    ensures RegisterList(RegisterList(s, d, i), d, i) == RegisterList(s, d, i)
  {
    var w := FilterOut(s, d);
    var e := OrderEntry(d, i);
    var sw := SortByIndex(w);
    SortPushed(w, e);
    SortedFilteredLacksId(s, d);
    FilterOutInserted(sw, e);
    SortPushed(sw, e);
    SortByIndexProps(w);
    SortByIndexSorted(sw);
  }

  /** Once filtered and sorted, a list holds no entry for the filtered id. */
  lemma SortedFilteredLacksId(s: seq<OrderEntry>, d: string)
    ensures !HasId(SortByIndex(FilterOut(s, d)), d)
  {
    var w := FilterOut(s, d);
    var sw := SortByIndex(w);
    FilterOutMembers(s, d);
    SortByIndexProps(w);
    forall j | 0 <= j < |sw| ensures sw[j].id != d {
      assert sw[j] in multiset(w);
    }
  }
}
