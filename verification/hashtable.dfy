/** The hash table of lib/libjansson/hashtable.c: all pairs in one circular list, each bucket a
    contiguous segment of it given by its first and last node. */
module Hashtable {
  import opened Common
  import opened Bits
  import opened Ring

  type Key = string

  datatype Pair<V> = Pair(key: Key, hash: nat, value: V)

  /** First and last node; the list head for both when the bucket is empty. */
  datatype Bucket = Bucket(first: nat, last: nat)

  const EMPTY: Bucket := Bucket(HEAD, HEAD)

  function SlotOf(hash: nat, n: nat): (r: nat)
    requires 0 < n
    ensures r < n
  {
    hash % n
  }

  ghost predicate Known<V>(ring: seq<nat>, pair: map<nat, Pair<V>>) {
    forall i :: 0 <= i < |ring| ==> ring[i] in pair
  }

  /** Node `i` belongs into bucket `b` of `n`. */
  ghost predicate InSlot<V>(ring: seq<nat>, pair: map<nat, Pair<V>>, n: nat, b: nat, i: int)
    requires 0 < n && Known(ring, pair) && 0 <= i < |ring|
  {
    SlotOf(pair[ring[i]].hash, n) == b
  }

  /** Bucket `b` is the segment from `lo` to `hi`. */
  ghost predicate Segment<V>(ring: seq<nat>, pair: map<nat, Pair<V>>, n: nat, b: nat, bucket: Bucket, lo: nat, hi: nat)
    requires 0 < n && Known(ring, pair)
  {
    && lo <= hi <= |ring|
    && (forall i :: 0 <= i < |ring| ==> (InSlot(ring, pair, n, b, i) <==> lo <= i < hi))
    && (if lo == hi then bucket == EMPTY else bucket.first == ring[lo] && bucket.last == ring[hi - 1])
  }

  ghost predicate Segmented<V>(ring: seq<nat>, pair: map<nat, Pair<V>>, n: nat, b: nat, bucket: Bucket)
    requires 0 < n && Known(ring, pair)
  {
    exists lo: nat, hi: nat :: Segment(ring, pair, n, b, bucket, lo, hi)
  }

  ghost predicate AllSegmented<V>(ring: seq<nat>, pair: map<nat, Pair<V>>, buckets: seq<Bucket>)
    requires Known(ring, pair)
  {
    0 < |buckets| && forall b :: 0 <= b < |buckets| ==> Segmented(ring, pair, |buckets|, b, buckets[b])
  }

  lemma EmptyIsNone(ring: seq<nat>, lo: nat, hi: nat, bucket: Bucket)
    requires Distinct(ring) && lo <= hi <= |ring|
    requires (if lo == hi then bucket == EMPTY else bucket.first == ring[lo] && bucket.last == ring[hi - 1])
    ensures bucket == EMPTY <==> lo == hi
  {
  }

  // ---------------------------------------------------------------- insertion

  /** Where `insert_to_bucket` puts a node. */
  ghost predicate InsertAt(ring: seq<nat>, bucket: Bucket, i: nat) {
    if bucket == EMPTY then i == |ring| else i < |ring| && ring[i] == bucket.first
  }

  function WithNode(bucket: Bucket, node: nat): Bucket {
    if bucket == EMPTY then Bucket(node, node) else bucket.(first := node)
  }

  /** The bucket that grows. */
  lemma InsertOwn<V>(ring: seq<nat>, pair: map<nat, Pair<V>>, n: nat, b: nat, bucket: Bucket, i: nat, node: nat,
                     p: Pair<V>)
    requires 0 < n && Known(ring, pair) && Distinct(ring) && node !in ring && node != HEAD && i <= |ring|
    requires Segmented(ring, pair, n, b, bucket) && InsertAt(ring, bucket, i) && SlotOf(p.hash, n) == b
    ensures Known(Inserted(ring, i, node), pair[node := p])
    ensures Segmented(Inserted(ring, i, node), pair[node := p], n, b, WithNode(bucket, node))
  {
    hide SlotOf;
    var lo: nat, hi: nat :| Segment(ring, pair, n, b, bucket, lo, hi);
    EmptyIsNone(ring, lo, hi, bucket);
    var r, q := Inserted(ring, i, node), pair[node := p];
    forall k | 0 <= k < |r|
      ensures InSlot(r, q, n, b, k) <==> i <= k < i + 1 + (hi - lo)
    {
      if k < i {
        assert InSlot(r, q, n, b, k) <==> InSlot(ring, pair, n, b, k);
      } else if k > i {
        assert InSlot(r, q, n, b, k) <==> InSlot(ring, pair, n, b, k - 1);
      }
    }
    assert Segment(r, q, n, b, WithNode(bucket, node), i, i + 1 + (hi - lo));
  }

  /** The other buckets. */
  lemma InsertOther<V>(ring: seq<nat>, pair: map<nat, Pair<V>>, n: nat, c: nat, other: Bucket, i: nat, node: nat,
                       p: Pair<V>)
    requires 0 < n && Known(ring, pair) && Distinct(ring) && node !in ring && i <= |ring| && SlotOf(p.hash, n) != c
    requires Segmented(ring, pair, n, c, other)
    requires i < |ring| ==> !InSlot(ring, pair, n, c, i)
    ensures Known(Inserted(ring, i, node), pair[node := p])
    ensures Segmented(Inserted(ring, i, node), pair[node := p], n, c, other)
  {
    hide SlotOf;
    var lo: nat, hi: nat :| Segment(ring, pair, n, c, other, lo, hi);
    var r, q := Inserted(ring, i, node), pair[node := p];
    forall k | 0 <= k < |r| && k != i
      ensures InSlot(r, q, n, c, k) <==> InSlot(ring, pair, n, c, if k < i then k else k - 1)
    {
    }
    assert !InSlot(r, q, n, c, i);
    if lo == hi {
      assert Segment(r, q, n, c, other, 0, 0);
    } else if hi <= i {
      assert Segment(r, q, n, c, other, lo, hi);
    } else {
      assert InSlot(ring, pair, n, c, lo);
      assert i <= lo;
      assert Segment(r, q, n, c, other, lo + 1, hi + 1);
    }
  }

  lemma InsertSegments<V>(ring: seq<nat>, pair: map<nat, Pair<V>>, buckets: seq<Bucket>, b: nat, i: nat, node: nat,
                          p: Pair<V>)
    requires Known(ring, pair) && AllSegmented(ring, pair, buckets) && Distinct(ring) && node !in ring && node != HEAD
    requires b < |buckets| && b == SlotOf(p.hash, |buckets|) && i <= |ring| && InsertAt(ring, buckets[b], i)
    ensures Known(Inserted(ring, i, node), pair[node := p])
    ensures AllSegmented(Inserted(ring, i, node), pair[node := p], buckets[b := WithNode(buckets[b], node)])
  {
    hide Segmented, SlotOf, InsertAt;
    var n := |buckets|;
    InsertOwn(ring, pair, n, b, buckets[b], i, node, p);
    forall c | 0 <= c < n && c != b
      ensures Segmented(Inserted(ring, i, node), pair[node := p], n, c, buckets[c])
    {
      FirstInSlot(ring, pair, n, b, buckets[b], i);
      InsertOther(ring, pair, n, c, buckets[c], i, node, p);
    }
  }

  /** The node before which a bucket grows is its own. */
  lemma FirstInSlot<V>(ring: seq<nat>, pair: map<nat, Pair<V>>, n: nat, b: nat, bucket: Bucket, i: nat)
    requires 0 < n && Known(ring, pair) && Distinct(ring) && Segmented(ring, pair, n, b, bucket)
    requires InsertAt(ring, bucket, i)
    ensures i < |ring| ==> InSlot(ring, pair, n, b, i)
  {
    hide SlotOf;
    var lo: nat, hi: nat :| Segment(ring, pair, n, b, bucket, lo, hi);
    EmptyIsNone(ring, lo, hi, bucket);
    if i < |ring| {
      assert i == lo;
    }
  }

  // ---------------------------------------------------------------- removal

  /** What `hashtable_do_del` makes of a bucket from which node `i` goes. */
  function WithoutNode(ring: seq<nat>, bucket: Bucket, i: nat): Bucket
    requires i < |ring|
  {
    if ring[i] == bucket.first && ring[i] == bucket.last then EMPTY
    else if ring[i] == bucket.first then bucket.(first := At(ring, i + 1))
    else if ring[i] == bucket.last then bucket.(last := At(ring, i - 1))
    else bucket
  }

  lemma RemoveOwn<V>(ring: seq<nat>, pair: map<nat, Pair<V>>, n: nat, b: nat, bucket: Bucket, i: nat)
    requires 0 < n && Known(ring, pair) && Distinct(ring) && i < |ring|
    requires Segmented(ring, pair, n, b, bucket) && InSlot(ring, pair, n, b, i)
    ensures Known(Removed(ring, i), pair) && Segmented(Removed(ring, i), pair, n, b, WithoutNode(ring, bucket, i))
  {
    hide SlotOf;
    var lo: nat, hi: nat :| Segment(ring, pair, n, b, bucket, lo, hi);
    var r := Removed(ring, i);
    forall k | 0 <= k < |r|
      ensures InSlot(r, pair, n, b, k) <==> InSlot(ring, pair, n, b, if k < i then k else k + 1)
    {
    }
    assert lo <= i < hi;
    assert Segment(r, pair, n, b, WithoutNode(ring, bucket, i), lo, hi - 1);
  }

  lemma RemoveOther<V>(ring: seq<nat>, pair: map<nat, Pair<V>>, n: nat, c: nat, other: Bucket, i: nat)
    requires 0 < n && Known(ring, pair) && Distinct(ring) && i < |ring|
    requires Segmented(ring, pair, n, c, other) && !InSlot(ring, pair, n, c, i)
    ensures Known(Removed(ring, i), pair) && Segmented(Removed(ring, i), pair, n, c, other)
  {
    hide SlotOf;
    var lo: nat, hi: nat :| Segment(ring, pair, n, c, other, lo, hi);
    var r := Removed(ring, i);
    forall k | 0 <= k < |r|
      ensures InSlot(r, pair, n, c, k) <==> InSlot(ring, pair, n, c, if k < i then k else k + 1)
    {
    }
    if lo == hi {
      assert Segment(r, pair, n, c, other, 0, 0);
    } else if hi <= i {
      assert Segment(r, pair, n, c, other, lo, hi);
    } else {
      assert Segment(r, pair, n, c, other, lo - 1, hi - 1);
    }
  }

  lemma RemoveSegments<V>(ring: seq<nat>, pair: map<nat, Pair<V>>, buckets: seq<Bucket>, b: nat, i: nat)
    requires Known(ring, pair) && AllSegmented(ring, pair, buckets) && Distinct(ring) && i < |ring|
    requires b < |buckets| && InSlot(ring, pair, |buckets|, b, i)
    ensures Known(Removed(ring, i), pair)
    ensures AllSegmented(Removed(ring, i), pair, buckets[b := WithoutNode(ring, buckets[b], i)])
  {
    hide Segmented, SlotOf, WithoutNode;
    var n := |buckets|;
    RemoveOwn(ring, pair, n, b, buckets[b], i);
    forall c | 0 <= c < n && c != b
      ensures Segmented(Removed(ring, i), pair, n, c, buckets[c])
    {
      RemoveOther(ring, pair, n, c, buckets[c], i);
    }
  }

  // ---------------------------------------------------------------- the map it stands for

  ghost predicate HasKey<V>(ring: seq<nat>, pair: map<nat, Pair<V>>, k: Key)
    requires Known(ring, pair)
  {
    exists i :: 0 <= i < |ring| && pair[ring[i]].key == k
  }

  /** The pairs in the ring are the bindings of `m`. */
  ghost predicate Represents<V>(ring: seq<nat>, pair: map<nat, Pair<V>>, m: map<Key, V>)
    requires Known(ring, pair)
  {
    && (forall i :: 0 <= i < |ring| ==> pair[ring[i]].key in m && m[pair[ring[i]].key] == pair[ring[i]].value)
    && (forall k :: k in m ==> HasKey(ring, pair, k))
    && (forall i, j :: 0 <= i < j < |ring| ==> pair[ring[i]].key != pair[ring[j]].key)
  }

  ghost predicate Hashed<V>(ring: seq<nat>, pair: map<nat, Pair<V>>, hash: Key -> nat)
    requires Known(ring, pair)
  {
    forall i :: 0 <= i < |ring| ==> pair[ring[i]].hash == hash(pair[ring[i]].key)
  }

  lemma RepresentsInsert<V>(ring: seq<nat>, pair: map<nat, Pair<V>>, m: map<Key, V>, i: nat, node: nat, p: Pair<V>)
    requires Known(ring, pair) && Represents(ring, pair, m) && i <= |ring| && node !in ring && p.key !in m
    ensures Known(Inserted(ring, i, node), pair[node := p])
    ensures Represents(Inserted(ring, i, node), pair[node := p], m[p.key := p.value])
  {
    var r, q := Inserted(ring, i, node), pair[node := p];
    forall k | k in m[p.key := p.value]
      ensures HasKey(r, q, k)
    {
      if k == p.key {
        assert q[r[i]].key == k;
      } else {
        var j :| 0 <= j < |ring| && pair[ring[j]].key == k;
        assert r[if j < i then j else j + 1] == ring[j];
      }
    }
  }

  lemma RepresentsRemove<V>(ring: seq<nat>, pair: map<nat, Pair<V>>, m: map<Key, V>, i: nat)
    requires Known(ring, pair) && Represents(ring, pair, m) && i < |ring|
    ensures Known(Removed(ring, i), pair) && Represents(Removed(ring, i), pair, m - {pair[ring[i]].key})
  {
    var r := Removed(ring, i);
    forall k | k in m && k != pair[ring[i]].key
      ensures HasKey(r, pair, k)
    {
      var j :| 0 <= j < |ring| && pair[ring[j]].key == k;
      assert r[if j < i then j else j - 1] == ring[j];
    }
  }

  lemma RepresentsUpdate<V>(ring: seq<nat>, pair: map<nat, Pair<V>>, m: map<Key, V>, i: nat, v: V)
    requires Known(ring, pair) && Represents(ring, pair, m) && i < |ring| && Distinct(ring)
    ensures var q := pair[ring[i] := pair[ring[i]].(value := v)];
      Known(ring, q) && Represents(ring, q, m[pair[ring[i]].key := v])
  {
    var q := pair[ring[i] := pair[ring[i]].(value := v)];
    forall k | k in m[pair[ring[i]].key := v]
      ensures HasKey(ring, q, k)
    {
      if k == pair[ring[i]].key {
        assert q[ring[i]].key == k;
      } else {
        var j :| 0 <= j < |ring| && pair[ring[j]].key == k;
        assert q[ring[j]].key == k;
      }
    }
  }

  lemma UpdateSegments<V>(ring: seq<nat>, pair: map<nat, Pair<V>>, buckets: seq<Bucket>, node: nat, v: V)
    requires Known(ring, pair) && AllSegmented(ring, pair, buckets) && node in pair
    ensures var q := pair[node := pair[node].(value := v)];
      Known(ring, q) && AllSegmented(ring, q, buckets)
  {
    hide SlotOf;
    var q := pair[node := pair[node].(value := v)];
    forall b | 0 <= b < |buckets|
      ensures Segmented(ring, q, |buckets|, b, buckets[b])
    {
      var lo: nat, hi: nat :| Segment(ring, pair, |buckets|, b, buckets[b], lo, hi);
      forall i | 0 <= i < |ring|
        ensures InSlot(ring, q, |buckets|, b, i) <==> InSlot(ring, pair, |buckets|, b, i)
      {
      }
      assert Segment(ring, q, |buckets|, b, buckets[b], lo, hi);
    }
  }

  /** The list is as long as the map has keys. */
  lemma {:induction false} CountKeys<V>(ring: seq<nat>, pair: map<nat, Pair<V>>, m: map<Key, V>)
    requires Known(ring, pair) && Represents(ring, pair, m)
    ensures |m| == |ring|
  {
    if |ring| == 0 {
      assert m == map[];
    } else {
      var n := |ring| - 1;
      var k := pair[ring[n]].key;
      RepresentsRemove(ring, pair, m, n);
      CountKeys(Removed(ring, n), pair, m - {k});
      assert m.Keys == (m - {k}).Keys + {k};
    }
  }

  /** A bucket of `n` empty ones. */
  lemma NoSegments<V>(pair: map<nat, Pair<V>>, buckets: seq<Bucket>)
    requires 0 < |buckets| && forall b :: 0 <= b < |buckets| ==> buckets[b] == EMPTY
    ensures Known([], pair) && AllSegmented([], pair, buckets)
  {
    forall b | 0 <= b < |buckets|
      ensures Segmented([], pair, |buckets|, b, buckets[b])
    {
      assert Segment([], pair, |buckets|, b, buckets[b], 0, 0);
    }
  }

  // ---------------------------------------------------------------- the table

  class Table<V> {
    /** Any fixed hash function. */
    const hash: Key -> nat
    var links: Links
    var pair: map<nat, Pair<V>>
    var buckets: seq<Bucket>
    /** The number of buckets is two to the power of `order`. */
    var order: nat
    var size: nat
    /** The next node to be allocated. */
    var free: nat
    ghost var ring: seq<nat>
    ghost var contents: map<Key, V>

    ghost predicate Sound()
      reads this
    {
      && Linked(links, ring) && Known(ring, pair) && AllSegmented(ring, pair, buckets) && Hashed(ring, pair, hash)
      && 0 < free && (forall i :: 0 <= i < |ring| ==> ring[i] < free) && |buckets| == Pow2(order)
    }

    ghost predicate Valid()
      reads this
    {
      Sound() && Represents(ring, pair, contents) && size == |ring|
    }

    /** The size is the number of keys. */
    lemma SizeIsCardinality()
      requires Valid()
      ensures size == |contents|
    {
      CountKeys(ring, pair, contents);
    }

    /** `hashtable_init`. */
    constructor (hash: Key -> nat)
      ensures Valid() && contents == map[] && this.hash == hash
    {
      this.hash := hash;
      links := Init(Links(map[], map[]));
      pair, size, free, order := map[], 0, 1, 3;
      buckets := seq(8, _ => EMPTY);
      ring, contents := [], map[];
      new;
      Powers();
      InitLinked(Links(map[], map[]));
      NoSegments(pair, buckets);
    }

    /** `insert_to_bucket`: `node`, whose data is `p`, joins bucket `b`. */
    method InsertToBucket(b: nat, node: nat, p: Pair<V>)
      requires Sound() && b < |buckets| && b == SlotOf(p.hash, |buckets|) && p.hash == hash(p.key)
      requires node !in ring && node != HEAD && node < free
      modifies this`links, this`pair, this`buckets, this`ring
      ensures Sound() && |buckets| == old(|buckets|) && pair == old(pair)[node := p]
      ensures exists i :: 0 <= i <= |old(ring)| && ring == Inserted(old(ring), i, node)
      ensures forall n :: n in old(links).next && n != node && n != HEAD && n !in old(ring) ==>
                n in links.next && links.next[n] == old(links).next[n]
    {
      hide SlotOf, Insert;
      ghost var i := Place(ring, pair, buckets, b);
      InsertSegments(ring, pair, buckets, b, i, node, p);
      InsertLinked(links, ring, i, node);
      var list := if buckets[b] == EMPTY then HEAD else buckets[b].first;
      assert list == At(ring, i);
      ghost var before := links;
      forall n | n in links.next && n != node && n != HEAD && n !in ring
        ensures n in Insert(links, list, node).next && Insert(links, list, node).next[n] == links.next[n]
      {
        InsertKeeps(links, list, node, n);
      }
      links := Insert(links, list, node);
      buckets := buckets[b := WithNode(buckets[b], node)];
      pair := pair[node := p];
      ring := Inserted(ring, i, node);
    }

    /** `hashtable_find_pair`: the node with this key, or the head. */
    method FindPair(b: nat, key: Key, h: nat) returns (node: nat, ghost at: nat)
      requires Sound() && h == hash(key) && b == SlotOf(h, |buckets|) && b < |buckets|
      ensures node != HEAD ==>
        at < |ring| && ring[at] == node && pair[node].key == key && InSlot(ring, pair, |buckets|, b, at)
      ensures node == HEAD ==> !HasKey(ring, pair, key)
    {
      hide SlotOf;
      ghost var lo: nat, hi: nat :| Segment(ring, pair, |buckets|, b, buckets[b], lo, hi);
      EmptyIsNone(ring, lo, hi, buckets[b]);
      at := lo;
      if buckets[b] == EMPTY {
        NotThere(ring, pair, |buckets|, b, buckets[b], lo, hi, key, hash);
        return HEAD, at;
      }
      var list := buckets[b].first;
      while true
        invariant lo <= at < hi && list == ring[at]
        invariant forall k :: lo <= k < at ==> pair[ring[k]].key != key
        decreases hi - at
      {
        if pair[list].hash == h && pair[list].key == key {
          return list, at;
        }
        if list == buckets[b].last {
          break;
        }
        NextOf(links, ring, at);
        list := links.next[list];
        at := at + 1;
      }
      NotThere(ring, pair, |buckets|, b, buckets[b], lo, hi, key, hash);
      node := HEAD;
    }

    /** `hash & hashmask(order)`: the bucket that rehashing finds as the remainder. */
    method Masked(h: nat) returns (idx: nat)
      requires Sound()
      ensures 0 < |buckets| && idx == SlotOf(h, |buckets|) < |buckets|
    {
      SomeBuckets();
      MaskIsMod(h, order);
      idx := And(h, |buckets| - 1);
    }

    /** `hashtable_get`. */
    method Get(key: Key) returns (value: Option<V>)
      requires Valid()
      ensures value == if key in contents then Some(contents[key]) else None
    {
      SomeBuckets();
      hide SlotOf, Linked, AllSegmented, Shl;
      var idx := Masked(hash(key));
      var node, at := FindPair(idx, key, hash(key));
      if node == HEAD {
        return None;
      }
      return Some(pair[node].value);
    }

    /** `hashtable_set`: bind `key` to `value`, growing first when there are as many pairs as
        buckets. */
    method Set(key: Key, value: V)
      requires Valid()
      modifies this
      ensures Valid() && contents == old(contents)[key := value]
    {
      hide SlotOf, Linked, AllSegmented, Shl;
      if size >= |buckets| {
        Rehash();
      }
      SomeBuckets();
      var h := hash(key);
      var idx := Masked(h);
      var node, at := FindPair(idx, key, h);
      if node != HEAD {
        Replace(node, value, at);
      } else {
        Add(idx, key, h, value);
      }
    }

    /** A new value for an existing pair. */
    method Replace(node: nat, value: V, ghost at: nat)
      requires Valid() && at < |ring| && ring[at] == node
      modifies this`pair, this`contents
      ensures Valid() && contents == old(contents)[old(pair)[node].key := value]
    {
      hide SlotOf, Linked, AllSegmented, Represents, Hashed, Distinct;
      RingDistinct(links, ring);
      UpdateSegments(ring, pair, buckets, node, value);
      RepresentsUpdate(ring, pair, contents, at, value);
      HashedUpdate(ring, pair, node, value, hash);
      contents := contents[pair[node].key := value];
      pair := pair[node := pair[node].(value := value)];
    }

    /** A new pair. */
    method Add(idx: nat, key: Key, h: nat, value: V)
      requires Valid() && h == hash(key) && idx < |buckets| && idx == SlotOf(h, |buckets|) && !HasKey(ring, pair, key)
      modifies this
      ensures Valid() && contents == old(contents)[key := value]
    {
      ghost var ring0, pair0, m := ring, pair, contents;
      var node := free;
      free := free + 1;
      assert key !in m;
      hide SlotOf, Linked, AllSegmented, Represents, Hashed;
      InsertToBucket(idx, node, Pair(key, h, value));
      ghost var i :| 0 <= i <= |ring0| && ring == Inserted(ring0, i, node);
      RepresentsInsert(ring0, pair0, m, i, node, Pair(key, h, value));
      size := size + 1;
      contents := contents[key := value];
    }

    /** `hashtable_do_rehash`: twice as many buckets, all nodes inserted anew while walking the
        old list. No binding changes. */
    method Rehash()
      requires Valid()
      modifies this
      ensures Valid() && contents == old(contents) && |buckets| == 2 * old(|buckets|)
    {
      ghost var was: seq<nat>, bind := ring, pair;
      hide *;
      WasKnown();
      RingDistinct(links, was);
      SplitAll(was);
      var list := Emptied();
      Reinsert(list, was, was);
      NoChain();
      RearrangedAll(was, ring, [], bind, contents);
      BackTogether();
    }

    /** The new, empty buckets; the old list can still be walked. */
    method Emptied() returns (list: nat)
      requires Sound()
      modifies this`links, this`buckets, this`ring, this`order
      ensures Sound() && ring == [] && Chain(links, old(ring)) && list == At(old(ring), 0)
      ensures |buckets| == 2 * old(|buckets|)
    {
      SomeBuckets();
      assert Pow2(order + 1) == 2 * Pow2(order);
      hide SlotOf, Linked, AllSegmented, Init, Hashed, Chain, Shl;
      HeadNext(links, ring);
      ChainOf(links, ring);
      InitChain(links, ring);
      InitLinked(links);
      NoneHashed(pair, hash);
      list := links.next[HEAD];
      order := order + 1;
      buckets := seq(2 * |buckets|, _ => EMPTY);
      NoSegments(pair, buckets);
      links := Init(links);
      ring := [];
    }

    lemma WasKnown()
      requires Valid()
      ensures Sound() && Linked(links, ring) && Known(ring, pair) && Represents(ring, pair, contents) && size == |ring|
      ensures Hashed(ring, pair, hash) && forall i :: 0 <= i < |ring| ==> ring[i] < free
    {
    }

    lemma BackTogether()
      requires Sound() && Known(ring, pair) && Represents(ring, pair, contents) && size == |ring|
      ensures Valid()
    {
    }

    /** Insert the nodes of the old list, in its order, into the new buckets. */
    method Reinsert(first: nat, ghost was: seq<nat>, ghost old_chain: seq<nat>)
      requires Sound() && Chain(links, old_chain) && first == At(old_chain, 0) && Known(old_chain, pair)
      requires Hashed(old_chain, pair, hash) && (forall i :: 0 <= i < |old_chain| ==> old_chain[i] < free)
      requires Rearranged(was, ring, old_chain)
      modifies this`links, this`pair, this`buckets, this`ring
      ensures Sound() && pair == old(pair) && |buckets| == old(|buckets|) && Rearranged(was, ring, [])
    {
      hide SlotOf, Linked, AllSegmented, Insert, Represents, Init, Distinct, Hashed, Chain, Rearranged, Shl;
      var list := first;
      ghost var chain: seq<nat>, bind := old_chain, pair;
      while list != HEAD
        invariant Sound() && |buckets| == old(|buckets|) && pair == bind
        invariant Chain(links, chain) && list == At(chain, 0) && Known(chain, pair) && Hashed(chain, pair, hash)
        invariant (forall i :: 0 <= i < |chain| ==> chain[i] < free) && Rearranged(was, ring, chain)
        decreases |chain|
      {
        ghost var rest: seq<nat>, done: seq<nat> := chain[1..], ring;
        ChainStep(links, chain);
        ChainHashed(chain, pair, hash);
        RearrangedApart(was, ring, chain);
        var next := links.next[list];
        SomeBuckets();
        SameSlot(pair[list].hash, |buckets|);
        var idx := SlotOf(pair[list].hash, |buckets|);
        ghost var old_links := links;
        InsertToBucket(idx, list, pair[list]);
        assert pair == bind;
        ghost var i :| 0 <= i <= |done| && ring == Inserted(done, i, list);
        RearrangedStep(was, done, chain, i);
        ChainKept(old_links, links, rest);
        chain := rest;
        list := next;
      }
      ChainEnds(links, chain);
    }

    /** `hashtable_del`: 0 when the key was there, -1 otherwise. */
    method Del(key: Key) returns (r: int)
      requires Valid()
      modifies this
      ensures Valid() && contents == old(contents) - {key}
      ensures r == if key in old(contents) then 0 else -1
    {
      SomeBuckets();
      hide SlotOf, Linked, AllSegmented, Hashed, Shl;
      var idx := Masked(hash(key));
      var node, at := FindPair(idx, key, hash(key));
      if node == HEAD {
        assert contents - {key} == contents;
        return -1;
      }
      assert key in contents;
      Drop(idx, node, at);
      return 0;
    }

    /** Take a pair out of its bucket and out of the list. */
    method Drop(idx: nat, node: nat, ghost at: nat)
      requires Valid() && at < |ring| && ring[at] == node && idx < |buckets| && InSlot(ring, pair, |buckets|, idx, at)
      modifies this
      ensures Valid() && contents == old(contents) - {old(pair)[node].key}
    {
      hide SlotOf, Linked, AllSegmented, Represents, Hashed, Remove, Distinct, InSlot;
      RingDistinct(links, ring);
      RemoveLinked(links, ring, at);
      RemoveSegments(ring, pair, buckets, idx, at);
      RepresentsRemove(ring, pair, contents, at);
      HashedRemove(ring, pair, at, hash);
      var b := buckets[idx];
      if node == b.first && node == b.last {
        b := EMPTY;
      } else if node == b.first {
        b := b.(first := links.next[node]);
      } else if node == b.last {
        b := b.(last := links.prev[node]);
      }
      assert b == WithoutNode(ring, buckets[idx], at);
      buckets := buckets[idx := b];
      links := Remove(links, node);
      size := size - 1;
      contents := contents - {pair[node].key};
      ring := Removed(ring, at);
    }

    /** `hashtable_clear`. */
    method Clear()
      requires Valid()
      modifies this
      ensures Valid() && contents == map[]
    {
      SomeBuckets();
      hide SlotOf, Linked, AllSegmented, Init;
      InitLinked(links);
      buckets := seq(|buckets|, _ => EMPTY);
      NoSegments(pair, buckets);
      links := Init(links);
      size := 0;
      ring, contents := [], map[];
    }

    /** Iteration by `hashtable_iter` and `hashtable_iter_next`: every key exactly once. */
    method Keys() returns (keys: seq<Key>)
      requires Valid()
      ensures |keys| == |contents|
      ensures forall k :: k in contents <==> k in keys
      ensures forall i, j :: 0 <= i < j < |keys| ==> keys[i] != keys[j]
    {
      SizeIsCardinality();
      hide SlotOf, Linked, AllSegmented, Hashed;
      keys := [];
      HeadNext(links, ring);
      var iter := links.next[HEAD];
      ghost var at := 0;
      RingDistinct(links, ring);
      while iter != HEAD
        invariant 0 <= at <= |ring| && iter == At(ring, at) && |keys| == at
        invariant forall i :: 0 <= i < at ==> keys[i] == pair[ring[i]].key
        decreases |ring| - at
      {
        keys := keys + [pair[iter].key];
        NextOf(links, ring, at);
        iter := links.next[iter];
        at := at + 1;
      }
      forall k
        ensures k in contents <==> k in keys
      {
        if k in contents {
          var i :| 0 <= i < |ring| && pair[ring[i]].key == k;
          assert keys[i] == k;
        }
      }
    }

    lemma SomeBuckets()
      requires Sound()
      ensures 0 < |buckets|
    {
    }
  }

  lemma NoChain()
    ensures At([], 0) == HEAD
  {
  }

  lemma SameSlot(h: nat, n: nat)
    requires 0 < n
    ensures SlotOf(h, n) < n
  {
  }

  /** A key with this hash would be in the segment. */
  lemma NotThere<V>(ring: seq<nat>, pair: map<nat, Pair<V>>, n: nat, b: nat, bucket: Bucket, lo: nat, hi: nat,
                    key: Key, hash: Key -> nat)
    requires 0 < n && Known(ring, pair) && Segment(ring, pair, n, b, bucket, lo, hi) && Hashed(ring, pair, hash)
    requires b == SlotOf(hash(key), n) && forall k :: lo <= k < hi ==> pair[ring[k]].key != key
    ensures !HasKey(ring, pair, key)
  {
    hide SlotOf;
    forall i | 0 <= i < |ring|
      ensures pair[ring[i]].key != key
    {
      assert InSlot(ring, pair, n, b, i) <==> lo <= i < hi;
    }
  }

  /** The place in the ring where bucket `b` grows. */
  ghost function Place<V>(ring: seq<nat>, pair: map<nat, Pair<V>>, buckets: seq<Bucket>, b: nat): (i: nat)
    requires Known(ring, pair) && AllSegmented(ring, pair, buckets) && Distinct(ring) && b < |buckets|
    ensures i <= |ring| && InsertAt(ring, buckets[b], i)
      && At(ring, i) == if buckets[b] == EMPTY then HEAD else buckets[b].first
  {
    assert Segmented(ring, pair, |buckets|, b, buckets[b]);
    var lo: nat, hi: nat :| Segment(ring, pair, |buckets|, b, buckets[b], lo, hi);
    EmptyIsNone(ring, lo, hi, buckets[b]);
    if lo == hi then |ring| else lo
  }

  lemma HashedUpdate<V>(ring: seq<nat>, pair: map<nat, Pair<V>>, node: nat, v: V, hash: Key -> nat)
    requires Known(ring, pair) && Hashed(ring, pair, hash) && node in pair
    ensures var q := pair[node := pair[node].(value := v)]; Known(ring, q) && Hashed(ring, q, hash)
  {
  }

  lemma HashedRemove<V>(ring: seq<nat>, pair: map<nat, Pair<V>>, i: nat, hash: Key -> nat)
    requires Known(ring, pair) && Hashed(ring, pair, hash) && i < |ring|
    ensures Known(Removed(ring, i), pair) && Hashed(Removed(ring, i), pair, hash)
  {
  }

  lemma RingDistinct(l: Links, ring: seq<nat>)
    requires Linked(l, ring)
    ensures Distinct(ring)
  {
  }

  lemma HeadNext(l: Links, ring: seq<nat>)
    requires Linked(l, ring)
    ensures HEAD in l.next && l.next[HEAD] == At(ring, 0)
  {
    NextOf(l, ring, -1);
  }

  // ---------------------------------------------------------------- rehashing

  /** Node `k` of an old list that is being taken apart. */
  ghost predicate ChainLink(l: Links, chain: seq<nat>, k: int) {
    0 <= k < |chain| ==> chain[k] in l.next && l.next[chain[k]] == At(chain, k + 1)
  }

  /** `next` runs through `chain` and then to the head. */
  ghost predicate Chain(l: Links, chain: seq<nat>) {
    Distinct(chain) && forall k :: 0 <= k < |chain| ==> ChainLink(l, chain, k)
  }

  lemma ChainOf(l: Links, ring: seq<nat>)
    requires Linked(l, ring)
    ensures Chain(l, ring)
  {
    forall k | 0 <= k < |ring|
      ensures ChainLink(l, ring, k)
    {
      NextOf(l, ring, k);
    }
  }

  lemma InitChain(l: Links, chain: seq<nat>)
    requires Chain(l, chain)
    ensures Chain(Init(l), chain)
  {
    forall k | 0 <= k < |chain|
      ensures ChainLink(Init(l), chain, k)
    {
      assert ChainLink(l, chain, k);
    }
  }

  lemma ChainEnds(l: Links, chain: seq<nat>)
    requires Chain(l, chain) && At(chain, 0) == HEAD
    ensures chain == []
  {
  }

  lemma ChainStep(l: Links, chain: seq<nat>)
    requires Chain(l, chain) && At(chain, 0) != HEAD
    ensures 0 < |chain| && chain[0] in l.next && l.next[chain[0]] == At(chain[1..], 0) && Chain(l, chain[1..])
  {
    assert ChainLink(l, chain, 0);
    forall k | 0 <= k < |chain| - 1
      ensures ChainLink(l, chain[1..], k)
    {
      assert ChainLink(l, chain, k + 1);
    }
  }

  lemma ChainKept(l: Links, m: Links, chain: seq<nat>)
    requires Chain(l, chain) && forall k :: 0 <= k < |chain| && chain[k] in l.next ==>
      chain[k] in m.next && m.next[chain[k]] == l.next[chain[k]]
    ensures Chain(m, chain)
  {
    forall k | 0 <= k < |chain|
      ensures ChainLink(m, chain, k)
    {
      assert ChainLink(l, chain, k);
    }
  }

  /** The nodes of `was` are those of `ring` and of `chain`, each once. */
  ghost predicate Rearranged(was: seq<nat>, ring: seq<nat>, chain: seq<nat>) {
    && |was| == |ring| + |chain| && Distinct(ring) && Distinct(chain)
    && (forall n :: n in was <==> n in ring || n in chain)
    && (forall n :: n in chain ==> n !in ring)
  }

  lemma NoneHashed<V>(pair: map<nat, Pair<V>>, hash: Key -> nat)
    ensures Known([], pair) && Hashed([], pair, hash)
  {
  }

  lemma ChainHashed<V>(chain: seq<nat>, pair: map<nat, Pair<V>>, hash: Key -> nat)
    requires 0 < |chain| && Known(chain, pair) && Hashed(chain, pair, hash)
    ensures chain[0] in pair && pair[chain[0]].hash == hash(pair[chain[0]].key)
    ensures Known(chain[1..], pair) && Hashed(chain[1..], pair, hash)
  {
  }

  lemma SplitAll(was: seq<nat>)
    requires Distinct(was)
    ensures Rearranged(was, [], was)
  {
  }

  lemma RearrangedApart(was: seq<nat>, ring: seq<nat>, chain: seq<nat>)
    requires Rearranged(was, ring, chain) && 0 < |chain|
    ensures chain[0] !in ring && chain[0] != HEAD
    ensures forall k :: 0 <= k < |chain[1..]| ==>
      chain[1..][k] != chain[0] && chain[1..][k] !in ring && chain[1..][k] != HEAD
  {
  }

  lemma InsertedDistinct(ring: seq<nat>, i: nat, node: nat)
    requires Distinct(ring) && i <= |ring| && node !in ring && node != HEAD
    ensures Distinct(Inserted(ring, i, node))
  {
  }

  lemma RearrangedStep(was: seq<nat>, ring: seq<nat>, chain: seq<nat>, i: nat)
    requires Rearranged(was, ring, chain) && 0 < |chain| && i <= |ring|
    ensures Rearranged(was, Inserted(ring, i, chain[0]), chain[1..])
  {
    var r := Inserted(ring, i, chain[0]);
    InsertedDistinct(ring, i, chain[0]);
    forall n
      ensures n in r <==> n in ring || n == chain[0]
    {
      if n in ring {
        var k :| 0 <= k < |ring| && ring[k] == n;
        assert r[if k < i then k else k + 1] == n;
      }
      assert r[i] == chain[0];
    }
    forall n
      ensures n in chain <==> n in chain[1..] || n == chain[0]
    {
      assert chain == [chain[0]] + chain[1..];
    }
  }

  /** The same nodes in another order represent the same map. */
  lemma RearrangedAll<V>(was: seq<nat>, ring: seq<nat>, chain: seq<nat>, pair: map<nat, Pair<V>>, m: map<Key, V>)
    requires Rearranged(was, ring, chain) && At(chain, 0) == HEAD && Distinct(was) && Known(was, pair)
    requires Represents(was, pair, m)
    ensures Known(ring, pair) && Represents(ring, pair, m) && |ring| == |was|
  {
    assert chain == [];
    forall i | 0 <= i < |ring|
      ensures exists j :: 0 <= j < |was| && was[j] == ring[i]
    {
      assert ring[i] in ring;
    }
    forall k | k in m
      ensures HasKey(ring, pair, k)
    {
      var j :| 0 <= j < |was| && pair[was[j]].key == k;
      assert was[j] in ring;
      var i :| 0 <= i < |ring| && ring[i] == was[j];
    }
  }
}
