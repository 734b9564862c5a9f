/** A time-keyed multimap, modelled as a sequence of (time, record) entries kept
    sorted by time. Insertion puts a new entry after every entry with the same
    key, as `std::multimap::emplace` does, so equal keys keep insertion order. */
module TimeIndex {

  type TimeMap<T> = seq<(nat, T)>

  ghost predicate KeysSorted<T>(m: TimeMap<T>) {
    forall i, j :: 0 <= i < j < |m| ==> m[i].0 <= m[j].0
  }

  /** The entries with key `k`, in sequence order. */
  function WithKey<T>(m: TimeMap<T>, k: nat): TimeMap<T> {
    if |m| == 0 then []
    else if m[0].0 == k then [m[0]] + WithKey(m[1..], k)
    else WithKey(m[1..], k)
  }

  /** `m` is a multimap holding exactly `entries`: sorted by key, and for each key
      the entries with that key appear in the order `entries` lists them. */
  ghost predicate IsStableIndexOf<T>(m: TimeMap<T>, entries: seq<(nat, T)>) {
    && KeysSorted(m)
    && multiset(m) == multiset(entries)
    && forall k :: WithKey(m, k) == WithKey(entries, k)
  }

  /** The position just past the equal range of `key`: the multimap's upper bound. */
  function UpperBound<T>(m: TimeMap<T>, key: nat): (i: nat)
    ensures i <= |m|
    ensures forall j :: 0 <= j < i ==> m[j].0 <= key
    ensures KeysSorted(m) ==> forall j :: i <= j < |m| ==> key < m[j].0
  {
    if |m| == 0 || m[0].0 > key then 0
    else 1 + UpperBound(m[1..], key)
  }

  lemma {:induction false} WithKeyConcat<T>(a: TimeMap<T>, b: TimeMap<T>, k: nat)
    ensures WithKey(a + b, k) == WithKey(a, k) + WithKey(b, k)
    decreases |a|
  {
    if |a| == 0 {
      assert a + b == b;
    } else {
      assert (a + b)[1..] == a[1..] + b;
      WithKeyConcat(a[1..], b, k);
    }
  }

  lemma {:induction false} WithKeyAbsent<T>(m: TimeMap<T>, k: nat)
    requires forall j :: 0 <= j < |m| ==> m[j].0 != k
    ensures WithKey(m, k) == []
    decreases |m|
  {
    if |m| > 0 {
      WithKeyAbsent(m[1..], k);
    }
  }

  /** Every entry `WithKey` returns carries the key, and comes from the map. */
  lemma {:induction false} WithKeyMembers<T>(m: TimeMap<T>, k: nat)
    ensures forall e :: e in WithKey(m, k) ==> e.0 == k && e in m
    decreases |m|
  {
    if |m| > 0 {
      WithKeyMembers(m[1..], k);
    }
  }

  /** Inserting at the upper bound of its key keeps a sorted map sorted. */
  lemma InsertAtUpperBoundSorted<T>(m: TimeMap<T>, key: nat, value: T)
    requires KeysSorted(m)
    ensures KeysSorted(m[..UpperBound(m, key)] + [(key, value)] + m[UpperBound(m, key)..])
  {
    var i := UpperBound(m, key);
    var m' := m[..i] + [(key, value)] + m[i..];
    forall a, b | 0 <= a < b < |m'| ensures m'[a].0 <= m'[b].0 {
      if b < i {
        assert m'[a] == m[a] && m'[b] == m[b];
      } else if b == i {
        assert m'[a] == m[a];
      } else if a < i {
        assert m'[a] == m[a] && m'[b] == m[b - 1];
      } else if a == i {
        assert m'[b] == m[b - 1];
      } else {
        assert m'[a] == m[a - 1] && m'[b] == m[b - 1];
      }
    }
  }

  /** Splicing an entry in front of entries with larger keys appends it to the
      entries of its own key and leaves every other key alone. */
  lemma WithKeySplice<T>(pre: TimeMap<T>, e: (nat, T), post: TimeMap<T>, k: nat)
    requires forall j :: 0 <= j < |post| ==> e.0 < post[j].0
    ensures WithKey(pre + [e] + post, k) == WithKey(pre + post, k) + (if k == e.0 then [e] else [])
  {
    WithKeyConcat(pre + [e], post, k);
    WithKeyConcat(pre, [e], k);
    WithKeyConcat(pre, post, k);
    assert WithKey([e], k) == (if k == e.0 then [e] else []) by {
      assert [e][1..] == [];
    }
    if k == e.0 {
      WithKeyAbsent(post, k);
    }
  }

  /** Inserting at the upper bound of its key appends the entry to that key's
      equal range and leaves every other key's entries as they were. */
  lemma InsertAtUpperBoundWithKey<T>(m: TimeMap<T>, key: nat, value: T, k: nat)
    requires KeysSorted(m)
    ensures WithKey(m[..UpperBound(m, key)] + [(key, value)] + m[UpperBound(m, key)..], k) ==
      WithKey(m, k) + (if k == key then [(key, value)] else [])
  {
    var i := UpperBound(m, key);
    assert m == m[..i] + m[i..];
    WithKeySplice(m[..i], (key, value), m[i..], k);
  }

  lemma InsertAtUpperBound<T>(m: TimeMap<T>, key: nat, value: T)
    ensures KeysSorted(m) ==> KeysSorted(m[..UpperBound(m, key)] + [(key, value)] + m[UpperBound(m, key)..])
    ensures KeysSorted(m) ==>
      forall k :: WithKey(m[..UpperBound(m, key)] + [(key, value)] + m[UpperBound(m, key)..], k) ==
        WithKey(m, k) + (if k == key then [(key, value)] else [])
  {
    if KeysSorted(m) {
      InsertAtUpperBoundSorted(m, key, value);
      forall k ensures WithKey(m[..UpperBound(m, key)] + [(key, value)] + m[UpperBound(m, key)..], k) ==
        WithKey(m, k) + (if k == key then [(key, value)] else [])
      {
        InsertAtUpperBoundWithKey(m, key, value, k);
      }
    }
  }

  /** Inserts an entry at the upper end of its key's equal range. */
  function Emplace<T>(m: TimeMap<T>, key: nat, value: T): (m': TimeMap<T>)
    ensures |m'| == |m| + 1
    ensures multiset(m') == multiset(m) + multiset{(key, value)}
    ensures KeysSorted(m) ==> KeysSorted(m')
    ensures KeysSorted(m) ==> forall k :: WithKey(m', k) == WithKey(m, k) + (if k == key then [(key, value)] else [])
  {
    var i := UpperBound(m, key);
    assert m == m[..i] + m[i..];
    var m' := m[..i] + [(key, value)] + m[i..];
    InsertAtUpperBound(m, key, value);
    m'
  }

  lemma WithKeySnoc<T>(init: TimeMap<T>, last: (nat, T))
    ensures forall k :: WithKey(init + [last], k) == WithKey(init, k) + (if k == last.0 then [last] else [])
  {
    forall k ensures WithKey(init + [last], k) == WithKey(init, k) + (if k == last.0 then [last] else []) {
      WithKeyConcat(init, [last], k);
      assert [last][1..] == [];
    }
  }

  /** Builds a multimap by emplacing the entries one after another, in order. */
  function BuildIndex<T>(entries: seq<(nat, T)>): (m: TimeMap<T>)
    ensures IsStableIndexOf(m, entries)
    decreases |entries|
  {
    if |entries| == 0 then []
    else
      var init, last := entries[..|entries| - 1], entries[|entries| - 1];
      var m := Emplace(BuildIndex(init), last.0, last.1);
      assert entries == init + [last];
      WithKeySnoc(init, last);
      m
  }

  /** A sorted map's first entry has the smallest key. */
  lemma FirstKeyIsLeast<T>(m: TimeMap<T>, e: (nat, T))
    requires KeysSorted(m) && e in m
    ensures m[0].0 <= e.0
  {
    var j :| 0 <= j < |m| && m[j] == e;
    if j > 0 {
      assert m[0].0 <= m[j].0;
    }
  }

  lemma WithKeyOfFirst<T>(m: TimeMap<T>)
    requires |m| > 0
    ensures WithKey(m, m[0].0) == [m[0]] + WithKey(m[1..], m[0].0)
  {
  }

  /** The stable-index specification leaves no freedom: two maps that are both
      stable indices of the same entries are equal. So the order in which the
      multimap iterates is fully determined by the input order. */
  lemma {:induction false} StableIndexIsUnique<T>(m1: TimeMap<T>, m2: TimeMap<T>)
    requires KeysSorted(m1) && KeysSorted(m2)
    requires forall k :: WithKey(m1, k) == WithKey(m2, k)
    ensures m1 == m2
    decreases |m1|
  {
    if |m1| == 0 || |m2| == 0 {
      if |m1| > 0 {
        WithKeyOfFirst(m1);
        assert false;
      }
      if |m2| > 0 {
        WithKeyOfFirst(m2);
        assert false;
      }
    } else {
      var k1, k2 := m1[0].0, m2[0].0;
      WithKeyMembers(m1, k2);
      WithKeyMembers(m2, k1);
      assert WithKey(m1, k1)[0] == m1[0];
      assert WithKey(m2, k2)[0] == m2[0];
      FirstKeyIsLeast(m2, WithKey(m2, k1)[0]);
      FirstKeyIsLeast(m1, WithKey(m1, k2)[0]);
      assert k1 == k2;
      assert m1[0] == m2[0];
      forall k ensures WithKey(m1[1..], k) == WithKey(m2[1..], k) {
        if k == k1 {
          assert WithKey(m1, k) == [m1[0]] + WithKey(m1[1..], k);
          assert WithKey(m2, k) == [m2[0]] + WithKey(m2[1..], k);
          assert WithKey(m1[1..], k) == WithKey(m1, k)[1..];
          assert WithKey(m2[1..], k) == WithKey(m2, k)[1..];
        } else {
          assert WithKey(m1, k) == WithKey(m1[1..], k);
          assert WithKey(m2, k) == WithKey(m2[1..], k);
        }
      }
      StableIndexIsUnique(m1[1..], m2[1..]);
      assert m1 == [m1[0]] + m1[1..];
      assert m2 == [m2[0]] + m2[1..];
    }
  }

  /** A stream that arrives already in time order is stored exactly as it
      arrived, equal timestamps included. */
  lemma BuildIndexOfSortedIsIdentity<T>(entries: seq<(nat, T)>)
    requires KeysSorted(entries)
    ensures BuildIndex(entries) == entries
  {
    StableIndexIsUnique(BuildIndex(entries), entries);
  }
}
