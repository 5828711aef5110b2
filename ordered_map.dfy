/** The sorted-map view of the memtable: the tree keeps its keys in ascending
    order, and both the flush and the size check walk it in that order. The
    memtable itself is a `map<int, V>`; this module gives its ascending key
    sequence and its ascending (key, value) sequence. */
module OrderedMap {

  /** The keys of `es` strictly increase from left to right. */
  ghost predicate StrictlyAscending<V>(es: seq<(int, V)>) {
    forall i, j :: 0 <= i < j < |es| ==> es[i].0 < es[j].0
  }

  lemma NonEmpty(ks: set<int>)
    requires ks != {}
    ensures exists k :: k in ks
  {
    if forall k :: k !in ks {
      assert false;
    }
  }

  /** `m` is the smallest element of `ks`. */
  predicate IsMin(m: int, ks: set<int>) {
    m in ks && forall k :: k in ks ==> m <= k
  }

  lemma {:induction false} MinExists(ks: set<int>)
    requires ks != {}
    ensures exists m :: IsMin(m, ks)
    decreases ks
  {
    NonEmpty(ks);
    var x :| x in ks;
    var rest := ks - {x};
    if rest == {} {
      assert ks == {x};
      assert IsMin(x, ks);
    } else {
      MinExists(rest);
      var y :| IsMin(y, rest);
      var m := if x <= y then x else y;
      forall k | k in ks ensures m <= k {
        if k != x {
          assert k in rest;
        }
      }
      assert IsMin(m, ks);
    }
  }

  /** The smallest key of a non-empty key set. */
  function Min(ks: set<int>): (m: int)
    requires ks != {}
    ensures m in ks
    ensures forall k :: k in ks ==> m <= k
  {
    MinExists(ks);
    var m :| IsMin(m, ks); m
  }

  lemma CardRemove(ks: set<int>, m: int)
    requires m in ks
    ensures |ks - {m}| == |ks| - 1
  {
    assert ks == (ks - {m}) + {m};
  }

  /** `r` lists the keys of `ks` in strictly increasing order, each exactly once. */
  ghost predicate SortedListing(r: seq<int>, ks: set<int>) {
    && |r| == |ks|
    && (forall i :: 0 <= i < |r| ==> r[i] in ks)
    && (forall k :: k in ks ==> k in r)
    && (forall i, j :: 0 <= i < j < |r| ==> r[i] < r[j])
  }

  /** Putting the minimum in front of a listing of the other keys lists them all. */
  lemma MinThenRest(ks: set<int>, m: int, rest: seq<int>)
    requires m in ks && forall k :: k in ks ==> m <= k
    requires SortedListing(rest, ks - {m})
    ensures SortedListing([m] + rest, ks)
  {
    CardRemove(ks, m);
    var sorted := [m] + rest;
    assert forall i :: 1 <= i < |sorted| ==> sorted[i] == rest[i - 1];
    forall i, j | 0 <= i < j < |sorted| ensures sorted[i] < sorted[j] {
      assert sorted[j] == rest[j - 1] && sorted[j] in ks - {m};
      if i > 0 {
        assert sorted[i] == rest[i - 1];
      }
    }
    forall k | k in ks ensures k in sorted {
      if k != m {
        assert k in rest;
      }
    }
  }

  /** The keys of `ks` in ascending order, as the tree's in-order walk yields
      them: every key exactly once, nothing else, strictly increasing. */
  function SortedKeys(ks: set<int>): (r: seq<int>)
    ensures |r| == |ks|
    ensures forall i :: 0 <= i < |r| ==> r[i] in ks
    ensures forall k :: k in ks ==> k in r
    ensures forall i, j :: 0 <= i < j < |r| ==> r[i] < r[j]
    decreases |ks|
  {
    if ks == {} then []
    else
      var m := Min(ks);
      CardRemove(ks, m);
      var rest := SortedKeys(ks - {m});
      MinThenRest(ks, m, rest);
      [m] + rest
  }

  /** Removing a key of `m` leaves one key fewer. */
  lemma MapRemoveCard<V>(m: map<int, V>, k: int)
    requires k in m
    ensures |m - {k}| == |m| - 1
    ensures (m - {k}).Keys == m.Keys - {k}
  {
    assert (m - {k}).Keys == m.Keys - {k};
    CardRemove(m.Keys, k);
  }

  /** A map of size zero has no keys. */
  lemma EmptyMap<V>(m: map<int, V>)
    ensures |m| == 0 ==> m.Keys == {}
  {
    assert |m| == |m.Keys|;
  }

  /** The (key, value) pairs of `m` in ascending key order: the memtable snapshot
      `memtable.iter().collect()` and the sequence the tree serialises. The
      in-order walk yields the smallest key first, then the walk of the rest.
      Its length, keys, ordering, values and completeness are the lemmas below. */
  function Entries<V>(m: map<int, V>): seq<(int, V)>
    decreases |m|
  {
    if |m| == 0 then []
    else
      var k := Min(m.Keys);
      MapRemoveCard(m, k);
      [(k, m[k])] + Entries(m - {k})
  }

  /** The snapshot has one pair per memtable key. */
  lemma {:induction false} EntriesLength<V>(m: map<int, V>)
    ensures |Entries(m)| == |m|
    decreases |m|
  {
    if |m| > 0 {
      var k := Min(m.Keys);
      MapRemoveCard(m, k);
      EntriesLength(m - {k});
    }
  }

  /** Every key of the snapshot is a memtable key. */
  lemma {:induction false} EntriesKeys<V>(m: map<int, V>)
    ensures forall i :: 0 <= i < |Entries(m)| ==> Entries(m)[i].0 in m
    decreases |m|
  {
    if |m| > 0 {
      var k := Min(m.Keys);
      MapRemoveCard(m, k);
      var rest := m - {k};
      EntriesKeys(rest);
      var es := Entries(m);
      assert es == [(k, m[k])] + Entries(rest);
      forall i | 0 < i < |es| ensures es[i].0 in m {
        assert es[i] == Entries(rest)[i - 1];
      }
    }
  }

  /** Each pair of the snapshot carries the value the memtable holds for its key. */
  lemma {:induction false} EntriesValues<V>(m: map<int, V>)
    ensures forall i :: 0 <= i < |Entries(m)| && Entries(m)[i].0 in m ==> m[Entries(m)[i].0] == Entries(m)[i].1
    decreases |m|
  {
    if |m| > 0 {
      var k := Min(m.Keys);
      MapRemoveCard(m, k);
      var rest := m - {k};
      EntriesValues(rest);
      EntriesKeys(rest);
      var es := Entries(m);
      assert es == [(k, m[k])] + Entries(rest);
      forall i | 0 < i < |es| && es[i].0 in m ensures m[es[i].0] == es[i].1 {
        assert es[i] == Entries(rest)[i - 1];
        assert es[i].0 in rest;
      }
    }
  }

  /** The snapshot is in strictly ascending key order. */
  lemma {:induction false} EntriesAscending<V>(m: map<int, V>)
    ensures StrictlyAscending(Entries(m))
    decreases |m|
  {
    if |m| > 0 {
      var k := Min(m.Keys);
      MapRemoveCard(m, k);
      var rest := m - {k};
      EntriesAscending(rest);
      EntriesKeys(rest);
      var es := Entries(m);
      assert es == [(k, m[k])] + Entries(rest);
      forall i, j | 0 <= i < j < |es| ensures es[i].0 < es[j].0 {
        assert es[j] == Entries(rest)[j - 1];
        if i > 0 {
          assert es[i] == Entries(rest)[i - 1];
        }
      }
    }
  }

  /** Every memtable key appears in the snapshot. */
  lemma EntriesComplete<V>(m: map<int, V>)
    ensures forall x :: x in m ==> exists i :: 0 <= i < |Entries(m)| && Entries(m)[i].0 == x
  {
    forall x | x in m ensures exists i :: 0 <= i < |Entries(m)| && Entries(m)[i].0 == x {
      EntriesCompleteAt(m, x);
    }
  }

  /** The memtable key `x` appears in the snapshot. */
  lemma {:induction false} EntriesCompleteAt<V>(m: map<int, V>, x: int)
    requires x in m
    ensures exists i :: 0 <= i < |Entries(m)| && Entries(m)[i].0 == x
    decreases |m|
  {
    EmptyMap(m);
    var k := Min(m.Keys);
    MapRemoveCard(m, k);
    var rest := m - {k};
    var es := Entries(m);
    assert es == [(k, m[k])] + Entries(rest);
    if x == k {
      assert es[0].0 == x;
    } else {
      EntriesCompleteAt(rest, x);
      ExistsAfterHead(es, k, m[k], Entries(rest), x);
    }
  }

  /** The snapshot's keys are the key walk: `iter()` and `keys()` visit the
      keys in the same order. */
  lemma {:induction false} EntriesKeyWalk<V>(m: map<int, V>)
    ensures |Entries(m)| == |SortedKeys(m.Keys)|
    ensures forall i :: 0 <= i < |Entries(m)| ==> Entries(m)[i].0 == SortedKeys(m.Keys)[i]
    decreases |m|
  {
    EmptyMap(m);
    if |m| > 0 {
      var k := Min(m.Keys);
      MapRemoveCard(m, k);
      var rest := m - {k};
      EntriesKeyWalk(rest);
      var es := Entries(m);
      var ks := SortedKeys(m.Keys);
      assert es == [(k, m[k])] + Entries(rest);
      assert ks == [k] + SortedKeys(rest.Keys);
      forall i | 0 < i < |es| ensures es[i].0 == ks[i] {
        assert es[i] == Entries(rest)[i - 1];
      }
    }
  }

  /** A key found in the tail is found in the whole, one place later. */
  lemma ExistsAfterHead<V>(es: seq<(int, V)>, k: int, v: V, tail: seq<(int, V)>, x: int)
    requires es == [(k, v)] + tail
    requires exists i :: 0 <= i < |tail| && tail[i].0 == x
    ensures exists i :: 0 <= i < |es| && es[i].0 == x
  {
    var i :| 0 <= i < |tail| && tail[i].0 == x;
    assert es[i + 1] == tail[i];
  }
}
