/**
 * Maps built by a sequence of `put` calls, where a later entry for a key
 * overwrites an earlier one: a `HashMap` filled in a loop, and Kotlin's
 * `associateBy`, which keeps the last element for each key.
 */
module Associations {
  import opened Text

  /** The map left by putting every entry, in order, into an empty map. */
  function PutAll<K, V>(entries: seq<(K, V)>): (m: map<K, V>)
    ensures m.Keys == set i | 0 <= i < |entries| :: entries[i].0
    decreases |entries|
  {
    if entries == [] then map[]
    else
      var init := entries[..|entries| - 1];
      var m := PutAll(init);
      assert forall i | 0 <= i < |init| :: init[i] == entries[i];
      m[Last(entries).0 := Last(entries).1]
  }

  /** One more `put` after the others. */
  lemma PutAllAppend<K, V>(entries: seq<(K, V)>, e: (K, V))
    ensures PutAll(entries + [e]) == PutAll(entries)[e.0 := e.1]
  {
    assert (entries + [e])[..|entries|] == entries;
  }

  /** Entry `i` is the last one with its key. */
  ghost predicate IsLastForKey<K, V>(entries: seq<(K, V)>, i: int)
  {
    0 <= i < |entries| && forall j | i < j < |entries| :: entries[j].0 != entries[i].0
  }

  /** The value stored under a key is the one of the key's last entry. */
  lemma {:induction false} PutAllLastWins<K, V>(entries: seq<(K, V)>, i: int)
    requires IsLastForKey(entries, i)
    ensures entries[i].0 in PutAll(entries)
    ensures PutAll(entries)[entries[i].0] == entries[i].1
    decreases |entries|
  {
    if i < |entries| - 1 {
      var init := entries[..|entries| - 1];
      assert init[i] == entries[i];
      assert IsLastForKey(init, i);
      PutAllLastWins(init, i);
    }
  }

  /** Every key of the map has a last entry, whose value the map holds. */
  lemma {:induction false} PutAllHasLast<K, V>(entries: seq<(K, V)>, k: K)
    requires k in PutAll(entries)
    ensures exists i :: IsLastForKey(entries, i) && entries[i].0 == k && PutAll(entries)[k] == entries[i].1
    decreases |entries|
  {
    if Last(entries).0 == k {
      assert IsLastForKey(entries, |entries| - 1);
    } else {
      var init := entries[..|entries| - 1];
      assert k in PutAll(init);
      PutAllHasLast(init, k);
      var i :| IsLastForKey(init, i) && init[i].0 == k && PutAll(init)[k] == init[i].1;
      assert IsLastForKey(entries, i);
    }
  }

  /** The entries with key and value exchanged. */
  function Swapped<K, V>(entries: seq<(K, V)>): (r: seq<(V, K)>)
    ensures |r| == |entries|
    ensures forall i | 0 <= i < |entries| :: r[i] == (entries[i].1, entries[i].0)
  {
    seq(|entries|, i requires 0 <= i < |entries| => (entries[i].1, entries[i].0))
  }

  /**
   * `entries.associateBy({ it.value }, { it.key })`: the inverse of a map given by
   * its entries in iteration order; a value held by several keys goes to the last.
   */
  function AssociateByValue<K, V>(entries: seq<(K, V)>): (inv: map<V, K>)
  {
    PutAll(Swapped(entries))
  }

  /** Entry `i` is the last one with its value. */
  ghost predicate IsLastForValue<K, V>(entries: seq<(K, V)>, i: int)
  {
    0 <= i < |entries| && forall j | i < j < |entries| :: entries[j].1 != entries[i].1
  }

  /** The inverse has the values as keys and sends each to the key of its last entry. */
  lemma AssociateByValueLastWins<K, V>(entries: seq<(K, V)>)
    ensures AssociateByValue(entries).Keys == set i | 0 <= i < |entries| :: entries[i].1
    ensures forall i | IsLastForValue(entries, i) ::
      entries[i].1 in AssociateByValue(entries) && AssociateByValue(entries)[entries[i].1] == entries[i].0
  {
    var sw := Swapped(entries);
    assert (set i | 0 <= i < |sw| :: sw[i].0) == set i | 0 <= i < |entries| :: entries[i].1;
    forall i | IsLastForValue(entries, i)
      ensures entries[i].1 in AssociateByValue(entries) && AssociateByValue(entries)[entries[i].1] == entries[i].0
    {
      assert IsLastForKey(sw, i);
      PutAllLastWins(sw, i);
    }
  }

  /** No two entries share a key, as for the entries of a map. */
  ghost predicate DistinctKeys<K, V>(entries: seq<(K, V)>)
  {
    forall i, j | 0 <= i < j < |entries| :: entries[i].0 != entries[j].0
  }

  /** No two entries share a value. */
  ghost predicate DistinctValues<K, V>(entries: seq<(K, V)>)
  {
    forall i, j | 0 <= i < j < |entries| :: entries[i].1 != entries[j].1
  }

  /**
   * Round trip: when no two keys share a value, looking a key up and then its
   * value up in the inverse gives back the key.
   */
  lemma InverseRoundTrip<K, V>(entries: seq<(K, V)>, k: K)
    requires DistinctKeys(entries) && DistinctValues(entries)
    requires k in PutAll(entries)
    ensures PutAll(entries)[k] in AssociateByValue(entries)
    ensures AssociateByValue(entries)[PutAll(entries)[k]] == k
  {
    PutAllHasLast(entries, k);
    var i :| IsLastForKey(entries, i) && entries[i].0 == k && PutAll(entries)[k] == entries[i].1;
    assert IsLastForValue(entries, i);
    AssociateByValueLastWins(entries);
  }

  /**
   * Round trip the other way: under the same condition, looking a value up in
   * the inverse and then the key up in the map gives back the value.
   */
  lemma InverseRoundTripBack<K, V>(entries: seq<(K, V)>, v: V)
    requires DistinctKeys(entries) && DistinctValues(entries)
    requires v in AssociateByValue(entries)
    ensures AssociateByValue(entries)[v] in PutAll(entries)
    ensures PutAll(entries)[AssociateByValue(entries)[v]] == v
  {
    var sw := Swapped(entries);
    PutAllHasLast(sw, v);
    var i :| IsLastForKey(sw, i) && sw[i].0 == v && PutAll(sw)[v] == sw[i].1;
    assert IsLastForKey(entries, i);
    PutAllLastWins(entries, i);
  }

  /** The image of a set under a function. */
  function Image<A, B>(s: set<A>, f: A -> B): set<B>
  {
    set x | x in s :: f(x)
  }

  lemma {:induction false} InjectiveImageSize<A, B>(s: set<A>, f: A -> B)
    requires forall x, y | x in s && y in s && x != y :: f(x) != f(y)
    ensures |Image(s, f)| == |s|
    decreases |s|
  {
    if s != {} {
      assert |s| > 0;
      var x :| x in s;
      var s' := s - {x};
      InjectiveImageSize(s', f);
      assert Image(s, f) == Image(s', f) + {f(x)};
    }
  }

  /** Leaving out one of two elements with the same image does not shrink the image. */
  lemma ImageWithout<A, B>(s: set<A>, f: A -> B, d: A, k: A)
    requires d in s && k in s && d != k && f(d) == f(k)
    ensures Image(s - {d}, f) == Image(s, f)
  {
    forall y | y in Image(s, f) ensures y in Image(s - {d}, f) {
      var x :| x in s && y == f(x);
      if x == d {
        assert k in s - {d};
      } else {
        assert x in s - {d};
      }
    }
  }
}
