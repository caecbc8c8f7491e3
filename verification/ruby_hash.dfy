/** Ruby's insertion-ordered `Hash`, as a sequence of (key, value) pairs whose keys are
    pairwise distinct. Iteration order is insertion order; storing under an existing key
    keeps that key's position. */
module RubyHash {
  /** What `Hash#[]` finds: the stored value, or nothing (Ruby's nil) for a missing key. */
  datatype Found<+V> = Missing | Present(value: V) {
    /** The value found, or `otherwise` when the key is missing. */
    function Or(otherwise: V): V {
      if Present? then value else otherwise
    }
  }

  /** No key occurs twice: the invariant every Ruby hash keeps. */
  predicate DistinctKeys<K(==), V>(h: seq<(K, V)>) {
    forall i, j :: 0 <= i < j < |h| ==> h[i].0 != h[j].0
  }

  /** The position of the first entry with key `k`, or `|h|` when there is none. */
  function KeyIndex<K(==), V>(h: seq<(K, V)>, k: K): (i: nat)
    ensures i <= |h|
    ensures i < |h| ==> h[i].0 == k
    ensures forall j :: 0 <= j < i ==> h[j].0 != k
  {
    if h == [] then 0
    else if h[0].0 == k then 0
    else
      var i := KeyIndex(h[1..], k);
      assert forall j :: 0 < j <= i ==> h[j] == h[1..][j - 1];
      1 + i
  }

  /** `Hash#key?` */
  predicate HasKey<K(==), V>(h: seq<(K, V)>, k: K) {
    KeyIndex(h, k) < |h|
  }

  /** `Hash#[]`: the value stored under `k`, if any. */
  function Lookup<K(==), V>(h: seq<(K, V)>, k: K): Found<V> {
    if HasKey(h, k) then Present(h[KeyIndex(h, k)].1) else Missing
  }

  /** A hash has a key exactly when one of its entries carries it. */
  lemma HasKeyIff<K, V>(h: seq<(K, V)>, k: K)
    ensures HasKey(h, k) <==> exists j :: 0 <= j < |h| && h[j].0 == k
  {
    if HasKey(h, k) {
      assert h[KeyIndex(h, k)].0 == k;
    }
  }

  /** In a hash with distinct keys, the key of entry `i` is found at `i`. */
  lemma IndexOfEntry<K, V>(h: seq<(K, V)>, i: nat)
    requires DistinctKeys(h) && i < |h|
    ensures KeyIndex(h, h[i].0) == i
  {
  }

  /** In a hash with distinct keys, looking up the key of any entry finds that entry's value. */
  lemma LookupEntry<K, V>(h: seq<(K, V)>, i: nat)
    requires DistinctKeys(h) && i < |h|
    ensures Lookup(h, h[i].0) == Present(h[i].1)
  {
    IndexOfEntry(h, i);
  }

  /** Two hashes with the same keys in the same positions find every key at the same place. */
  lemma {:induction false} KeyIndexSameKeys<K, V>(h: seq<(K, V)>, h': seq<(K, V)>, k: K)
    requires |h| == |h'|
    requires forall j :: 0 <= j < |h| ==> h[j].0 == h'[j].0
    ensures KeyIndex(h, k) == KeyIndex(h', k)
    decreases |h|
  {
    if h != [] && h[0].0 != k {
      KeyIndexSameKeys(h[1..], h'[1..], k);
    }
  }

  /** Finding a key in a hash followed by more entries: its first position in the front
      part if it is there, and otherwise its first position in the rest, shifted. */
  lemma {:induction false} KeyIndexConcat<K, V>(h: seq<(K, V)>, e: seq<(K, V)>, x: K)
    ensures KeyIndex(h + e, x) == if HasKey(h, x) then KeyIndex(h, x) else |h| + KeyIndex(e, x)
    decreases |h|
  {
    if h == [] {
      assert h + e == e;
    } else if h[0].0 != x {
      assert (h + e)[1..] == h[1..] + e;
      KeyIndexConcat(h[1..], e, x);
    }
  }

  /** Finding a key in a hash with one entry appended. */
  lemma KeyIndexAppend<K, V>(h: seq<(K, V)>, k: K, v: V, x: K)
    ensures HasKey(h, x) ==> KeyIndex(h + [(k, v)], x) == KeyIndex(h, x)
    ensures !HasKey(h, x) && x == k ==> KeyIndex(h + [(k, v)], x) == |h|
    ensures !HasKey(h, x) && x != k ==> KeyIndex(h + [(k, v)], x) == |h| + 1
  {
    KeyIndexConcat(h, [(k, v)], x);
  }

  /** Looking up in a hash with one entry appended under a new key. */
  lemma LookupAppend<K, V>(h: seq<(K, V)>, k: K, v: V, x: K)
    requires !HasKey(h, k)
    ensures Lookup(h + [(k, v)], x) == if x == k then Present(v) else Lookup(h, x)
    ensures HasKey(h + [(k, v)], x) <==> x == k || HasKey(h, x)
  {
    KeyIndexAppend(h, k, v, x);
    if HasKey(h, x) {
      assert (h + [(k, v)])[KeyIndex(h, x)] == h[KeyIndex(h, x)];
    }
  }

  /** The tail of a hash with distinct keys has distinct keys and lacks the head's key. */
  lemma TailOfDistinct<K, V>(u: seq<(K, V)>)
    requires DistinctKeys(u) && u != []
    ensures DistinctKeys(u[1..])
    ensures !HasKey(u[1..], u[0].0)
  {
    var t := u[1..];
    forall i, j | 0 <= i < j < |t| ensures t[i].0 != t[j].0 {
      assert t[i] == u[i + 1] && t[j] == u[j + 1];
    }
  }

  /** `Hash#[]=`: an existing key gets the new value in its own position; a new key is
      appended after all others. */
  function Store<K(==), V>(h: seq<(K, V)>, k: K, v: V): (r: seq<(K, V)>)
    requires DistinctKeys(h)
    ensures DistinctKeys(r)
  {
    var i := KeyIndex(h, k);
    if i < |h| then h[i := (k, v)] else h + [(k, v)]
  }

  /** After storing `v` under `k`, `k` finds `v` and every other key finds what it found. */
  lemma StoreLookup<K, V>(h: seq<(K, V)>, k: K, v: V, x: K)
    requires DistinctKeys(h)
    ensures Lookup(Store(h, k, v), x) == if x == k then Present(v) else Lookup(h, x)
    ensures HasKey(Store(h, k, v), x) <==> x == k || HasKey(h, x)
  {
    var i := KeyIndex(h, k);
    if i < |h| {
      KeyIndexSameKeys(h, h[i := (k, v)], x);
    } else {
      LookupAppend(h, k, v, x);
    }
  }

  /** The entries of `u` whose keys `d` does not have, in `u`'s order. */
  function Fresh<K(==), V>(u: seq<(K, V)>, d: seq<(K, V)>): seq<(K, V)>
  {
    if u == [] then []
    else if HasKey(d, u[0].0) then Fresh(u[1..], d)
    else [u[0]] + Fresh(u[1..], d)
  }

  /** The fresh entries are exactly the entries of `u` whose key `d` does not have. */
  lemma {:induction false} FreshMembers<K, V>(u: seq<(K, V)>, d: seq<(K, V)>)
    ensures forall e :: e in Fresh(u, d) <==> e in u && !HasKey(d, e.0)
    decreases |u|
  {
    if u != [] {
      FreshMembers(u[1..], d);
      assert u == [u[0]] + u[1..];
    }
  }

  /** `Hash#merge`, as Ruby carries it out: a copy of `d` into which every entry of `u` is
      stored, in `u`'s order. */
  function Merge<K(==), V>(d: seq<(K, V)>, u: seq<(K, V)>): (r: seq<(K, V)>)
    requires DistinctKeys(d) && DistinctKeys(u)
    ensures DistinctKeys(r)
    decreases |u|
  {
    if u == [] then d
    else
      TailOfDistinct(u);
      Merge(Store(d, u[0].0, u[0].1), u[1..])
  }

  /** Looking up in a merged hash finds the second hash's value for its keys and the
      first hash's value for all other keys; the merged hash has exactly the keys of both. */
  lemma {:induction false} MergeLookup<K, V>(d: seq<(K, V)>, u: seq<(K, V)>, k: K)
    requires DistinctKeys(d) && DistinctKeys(u)
    ensures Lookup(Merge(d, u), k) == if HasKey(u, k) then Lookup(u, k) else Lookup(d, k)
    ensures HasKey(Merge(d, u), k) <==> HasKey(d, k) || HasKey(u, k)
    decreases |u|
  {
    if u != [] {
      var t := u[1..];
      TailOfDistinct(u);
      MergeLookup(Store(d, u[0].0, u[0].1), t, k);
      StoreLookup(d, u[0].0, u[0].1, k);
      if k != u[0].0 {
        assert KeyIndex(u, k) == 1 + KeyIndex(t, k);
        if HasKey(t, k) {
          assert u[KeyIndex(u, k)] == t[KeyIndex(t, k)];
        }
      }
    }
  }

  /** Every entry of `d`, in place, carrying `u`'s value where `u` has the key. */
  function Overlay<K(==), V>(d: seq<(K, V)>, u: seq<(K, V)>): seq<(K, V)>
  {
    seq(|d|, i requires 0 <= i < |d| => (d[i].0, Lookup(u, d[i].0).Or(d[i].1)))
  }

  /** Looking up in a hash that starts with a given entry. */
  lemma LookupCons<K, V>(k: K, v: V, t: seq<(K, V)>, x: K)
    ensures Lookup([(k, v)] + t, x) == if x == k then Present(v) else Lookup(t, x)
    ensures HasKey([(k, v)] + t, x) <==> x == k || HasKey(t, x)
  {
    var u := [(k, v)] + t;
    assert u[1..] == t;
    if x != k && HasKey(t, x) {
      assert u[KeyIndex(u, x)] == t[KeyIndex(t, x)];
    }
  }

  /** `Fresh` depends only on which keys the second hash has. */
  lemma {:induction false} FreshSameKeys<K, V>(u: seq<(K, V)>, d: seq<(K, V)>, d': seq<(K, V)>)
    requires forall k :: HasKey(d, k) <==> HasKey(d', k)
    ensures Fresh(u, d) == Fresh(u, d')
    decreases |u|
  {
    if u != [] {
      FreshSameKeys(u[1..], d, d');
    }
  }

  /** One step of `Merge` that replaces the value of a key `d` already has, read
      declaratively. */
  lemma MergeStepReplace<K, V>(d: seq<(K, V)>, i: nat, v: V, t: seq<(K, V)>)
    requires DistinctKeys(d) && i < |d| && !HasKey(t, d[i].0)
    ensures Overlay(d[i := (d[i].0, v)], t) + Fresh(t, d[i := (d[i].0, v)])
         == Overlay(d, [(d[i].0, v)] + t) + Fresh([(d[i].0, v)] + t, d)
  {
    var k := d[i].0;
    var d' := d[i := (k, v)];
    var u := [(k, v)] + t;
    assert Overlay(d', t) == Overlay(d, u) by {
      forall j | 0 <= j < |d| ensures Overlay(d', t)[j] == Overlay(d, u)[j] {
        LookupCons(k, v, t, d[j].0);
      }
    }
    assert Fresh(t, d') == Fresh(u, d) by {
      forall x ensures HasKey(d, x) <==> HasKey(d', x) {
        KeyIndexSameKeys(d, d', x);
      }
      FreshSameKeys(t, d', d);
      IndexOfEntry(d, i);
      assert u[1..] == t;
    }
  }

  /** Giving `d` a key that `u` does not have leaves the fresh part of `u` unchanged. */
  lemma {:induction false} FreshSkipsAbsentKey<K, V>(u: seq<(K, V)>, d: seq<(K, V)>, k: K, v: V)
    requires !HasKey(u, k) && !HasKey(d, k)
    ensures Fresh(u, d + [(k, v)]) == Fresh(u, d)
    decreases |u|
  {
    if u != [] {
      LookupCons(u[0].0, u[0].1, u[1..], k);
      assert u == [(u[0].0, u[0].1)] + u[1..];
      LookupAppend(d, k, v, u[0].0);
      FreshSkipsAbsentKey(u[1..], d, k, v);
    }
  }

  /** One step of `Merge` that appends a key `d` lacks, read declaratively. */
  lemma MergeStepAppend<K, V>(d: seq<(K, V)>, k: K, v: V, t: seq<(K, V)>)
    requires !HasKey(d, k) && !HasKey(t, k)
    ensures Overlay(d + [(k, v)], t) + Fresh(t, d + [(k, v)])
         == Overlay(d, [(k, v)] + t) + Fresh([(k, v)] + t, d)
  {
    var u, d' := [(k, v)] + t, d + [(k, v)];
    OverlayAppend(d, k, v, t);
    FreshSkipsAbsentKey(t, d, k, v);
    FreshCons(k, v, t, d);
    MovedEntry(Overlay(d', t), Fresh(t, d'), Overlay(d, u), (k, v), Fresh(u, d));
  }

  /** Moving the entry that ends the first part to the front of the second part leaves the
      whole unchanged. */
  lemma MovedEntry<T>(x: seq<T>, y: seq<T>, a: seq<T>, e: T, w: seq<T>)
    requires x == a + [e] && w == [e] + y
    ensures x + y == a + w
  {
  }

  /** An entry whose key `d` lacks is the first fresh entry. */
  lemma FreshCons<K, V>(k: K, v: V, t: seq<(K, V)>, d: seq<(K, V)>)
    requires !HasKey(d, k)
    ensures Fresh([(k, v)] + t, d) == [(k, v)] + Fresh(t, d)
  {
    assert ([(k, v)] + t)[1..] == t;
  }

  /** Overlaying onto a hash with a new key appended that the overlay lacks. */
  lemma OverlayAppend<K, V>(d: seq<(K, V)>, k: K, v: V, t: seq<(K, V)>)
    requires !HasKey(d, k) && !HasKey(t, k)
    ensures Overlay(d + [(k, v)], t) == Overlay(d, [(k, v)] + t) + [(k, v)]
  {
    var d' := d + [(k, v)];
    var a := Overlay(d, [(k, v)] + t);
    forall j | 0 <= j < |d| ensures Overlay(d', t)[j] == a[j] {
      assert d'[j] == d[j];
      LookupCons(k, v, t, d[j].0);
    }
    assert Overlay(d', t)[|d|] == (k, v);
  }

  /** The declarative reading of `Hash#merge`: the keys of `d` keep their positions, taking
      `u`'s value where `u` has one, and `u`'s new keys follow, in `u`'s order. */
  lemma {:induction false} MergeIsOverlay<K, V>(d: seq<(K, V)>, u: seq<(K, V)>)
    requires DistinctKeys(d) && DistinctKeys(u)
    ensures Merge(d, u) == Overlay(d, u) + Fresh(u, d)
    decreases |u|
  {
    if u == [] {
      assert Overlay(d, u) == d;
    } else {
      var k, v, t := u[0].0, u[0].1, u[1..];
      TailOfDistinct(u);
      assert u == [(k, v)] + t;
      var d' := Store(d, k, v);
      assert Merge(d, u) == Merge(d', t);
      MergeIsOverlay(d', t);
      if HasKey(d, k) {
        MergeStepReplace(d, KeyIndex(d, k), v, t);
      } else {
        MergeStepAppend(d, k, v, t);
      }
    }
  }

  /** A merged hash begins with the first hash's keys, each in its own position, holding
      the second hash's value when the second hash has that key and its own value otherwise;
      after them come the entries of the second hash with new keys, in its order. */
  lemma MergeLayout<K, V>(d: seq<(K, V)>, u: seq<(K, V)>)
    requires DistinctKeys(d) && DistinctKeys(u)
    ensures |Merge(d, u)| >= |d|
    ensures forall i :: 0 <= i < |d| ==> Merge(d, u)[i].0 == d[i].0
    ensures forall i :: 0 <= i < |d| && HasKey(u, d[i].0) ==> Present(Merge(d, u)[i].1) == Lookup(u, d[i].0)
    ensures forall i :: 0 <= i < |d| && !HasKey(u, d[i].0) ==> Merge(d, u)[i].1 == d[i].1
    ensures Merge(d, u)[|d|..] == Fresh(u, d)
    ensures forall e :: e in Merge(d, u)[|d|..] <==> e in u && !HasKey(d, e.0)
  {
    MergeIsOverlay(d, u);
    FreshMembers(u, d);
    var r := Merge(d, u);
    assert r[..|d|] == Overlay(d, u);
  }

  /** Merging in an empty hash gives back the first hash unchanged. */
  lemma MergeEmpty<K, V>(d: seq<(K, V)>)
    requires DistinctKeys(d)
    ensures Merge(d, []) == d
  {
  }

  /** Merging into an empty hash gives back the second hash unchanged. */
  lemma {:induction false} MergeIntoEmpty<K, V>(u: seq<(K, V)>)
    requires DistinctKeys(u)
    ensures Merge([], u) == u
  {
    MergeIsOverlay([], u);
    FreshOfNothing(u);
  }

  /** Against a hash with no keys, everything is fresh. */
  lemma {:induction false} FreshOfNothing<K, V>(u: seq<(K, V)>)
    ensures Fresh(u, []) == u
    decreases |u|
  {
    if u != [] {
      FreshOfNothing(u[1..]);
    }
  }

  /** When every key of `u` is a key of `m`, nothing of `u` is fresh. */
  lemma {:induction false} FreshOfCovered<K, V>(u: seq<(K, V)>, m: seq<(K, V)>)
    requires forall i :: 0 <= i < |u| ==> HasKey(m, u[i].0)
    ensures Fresh(u, m) == []
    decreases |u|
  {
    if u != [] {
      assert forall i :: 0 <= i < |u[1..]| ==> u[1..][i] == u[i + 1];
      FreshOfCovered(u[1..], m);
    }
  }

  /** Merging the same hash in twice is the same as merging it once. */
  lemma MergeIdempotent<K, V>(d: seq<(K, V)>, u: seq<(K, V)>)
    requires DistinctKeys(d) && DistinctKeys(u)
    ensures Merge(Merge(d, u), u) == Merge(d, u)
  {
    var m := Merge(d, u);
    MergeIsOverlay(m, u);
    assert Fresh(u, m) == [] by {
      forall i | 0 <= i < |u| ensures HasKey(m, u[i].0) {
        IndexOfEntry(u, i);
        MergeLookup(d, u, u[i].0);
      }
      FreshOfCovered(u, m);
    }
    assert Overlay(m, u) == m by {
      forall i | 0 <= i < |m| ensures Overlay(m, u)[i] == m[i] {
        LookupEntry(m, i);
        MergeLookup(d, u, m[i].0);
      }
    }
  }

  /** Every overlaid entry is an entry of one of the two hashes. */
  lemma OverlayFrom<K, V>(d: seq<(K, V)>, u: seq<(K, V)>, i: nat)
    requires i < |d|
    ensures Overlay(d, u)[i] in d || Overlay(d, u)[i] in u
  {
    var k := d[i].0;
    if HasKey(u, k) {
      assert Overlay(d, u)[i] == u[KeyIndex(u, k)];
    } else {
      assert Overlay(d, u)[i] == d[i];
    }
  }

  /** Every fresh entry is an entry of `u`. */
  lemma {:induction false} FreshFrom<K, V>(u: seq<(K, V)>, d: seq<(K, V)>, j: nat)
    requires j < |Fresh(u, d)|
    ensures Fresh(u, d)[j] in u
    decreases |u|
  {
    if HasKey(d, u[0].0) {
      FreshFrom(u[1..], d, j);
    } else if j > 0 {
      FreshFrom(u[1..], d, j - 1);
    }
  }

  /** Every entry of a merged hash is an entry of one of the two hashes. */
  lemma MergeFrom<K, V>(d: seq<(K, V)>, u: seq<(K, V)>, i: nat)
    requires DistinctKeys(d) && DistinctKeys(u)
    requires i < |Merge(d, u)|
    ensures Merge(d, u)[i] in d || Merge(d, u)[i] in u
  {
    var r := Merge(d, u);
    var o, f := Overlay(d, u), Fresh(u, d);
    MergeIsOverlay(d, u);
    if i < |d| {
      assert r[i] == o[i];
      OverlayFrom(d, u, i);
    } else {
      assert r[i] == f[i - |d|];
      FreshFrom(u, d, i - |d|);
    }
  }

  /** Merging in a one-entry hash is storing its entry. */
  lemma MergeSingle<K, V>(d: seq<(K, V)>, k: K, v: V)
    requires DistinctKeys(d)
    ensures Merge(d, [(k, v)]) == Store(d, k, v)
  {
    var u := [(k, v)];
    assert u[1..] == [];
    assert Merge(d, u) == Merge(Store(d, k, v), u[1..]);
  }
}
