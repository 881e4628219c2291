/**
  The bucket vector of a separately-chained hash table: the index a key hashes to,
  the reading of all buckets as one entry sequence, and the redistribution of every
  entry into a fresh, larger bucket vector (rehash).
 */
module Buckets {
  import opened Entries

  /** The bucket a key belongs to: its hash reduced modulo the bucket count. The
      hash is a parameter because the platform's hash of a key is not specified. */
  function BucketIndex<K>(hash: K -> nat, k: K, capacity: nat): (i: nat)
    requires capacity > 0
    ensures i < capacity
    ensures hash(k) < capacity ==> i == hash(k)
  {
    hash(k) % capacity
  }

  /** All entries, bucket after bucket, each chain front to back. */
  function Flatten<K, V>(bs: seq<seq<(K, V)>>): seq<(K, V)>
  {
    if bs == [] then [] else bs[0] + Flatten(bs[1..])
  }

  /** Every entry sits in the bucket its key hashes to under the current bucket count. */
  ghost predicate Placed<K, V>(bs: seq<seq<(K, V)>>, hash: K -> nat)
  {
    forall b, j :: 0 <= b < |bs| && 0 <= j < |bs[b]| ==> BucketIndex(hash, bs[b][j].0, |bs|) == b
  }

  /** A fresh vector of `n` empty buckets. */
  function EmptyBuckets<K, V>(n: nat): (bs: seq<seq<(K, V)>>)
    ensures |bs| == n
    ensures forall b :: 0 <= b < n ==> bs[b] == []
    ensures Flatten(bs) == []
    decreases n
  {
    if n == 0 then [] else [[]] + EmptyBuckets(n - 1)
  }

  lemma {:induction false} FlattenSplit<K, V>(bs: seq<seq<(K, V)>>, i: nat)
    requires i < |bs|
    ensures Flatten(bs) == Flatten(bs[..i]) + bs[i] + Flatten(bs[i + 1..])
    decreases i
  {
    if i == 0 {
      assert bs[..0] == [];
    } else {
      var tail := bs[1..];
      FlattenSplit(tail, i - 1);
      assert tail[..i - 1] == bs[1..i];
      assert tail[i - 1] == bs[i];
      assert tail[i..] == bs[i + 1..];
      assert bs[..i][0] == bs[0] && bs[..i][1..] == bs[1..i];
    }
  }

  /** Replacing one bucket replaces exactly that bucket's stretch of the flat reading. */
  lemma FlattenUpdate<K, V>(bs: seq<seq<(K, V)>>, i: nat, c: seq<(K, V)>)
    requires i < |bs|
    ensures Flatten(bs[i := c]) == Flatten(bs[..i]) + c + Flatten(bs[i + 1..])
  {
    FlattenSplit(bs[i := c], i);
    assert bs[i := c][..i] == bs[..i];
    assert bs[i := c][i + 1..] == bs[i + 1..];
  }

  lemma {:induction false} FlattenSnoc<K, V>(bs: seq<seq<(K, V)>>, c: seq<(K, V)>)
    ensures Flatten(bs + [c]) == Flatten(bs) + c
    decreases |bs|
  {
    if bs == [] {
      assert [] + [c] == [c];
      assert [c][1..] == [];
    } else {
      assert (bs + [c])[1..] == bs[1..] + [c];
      FlattenSnoc(bs[1..], c);
    }
  }

  /** A key found in the flat reading is found in some bucket. */
  lemma {:induction false} KeyInSomeBucket<K, V>(bs: seq<seq<(K, V)>>, k: K) returns (b: nat)
    requires HasKey(Flatten(bs), k)
    ensures b < |bs| && HasKey(bs[b], k)
    decreases |bs|
  {
    HasKeyConcat(bs[0], Flatten(bs[1..]), k);
    if HasKey(bs[0], k) {
      b := 0;
    } else {
      var b' := KeyInSomeBucket(bs[1..], k);
      b := b' + 1;
    }
  }

  /** A key found in some bucket is found in the flat reading. */
  lemma KeyInFlatten<K, V>(bs: seq<seq<(K, V)>>, b: nat, k: K)
    requires b < |bs| && HasKey(bs[b], k)
    ensures HasKey(Flatten(bs), k)
  {
    FlattenSplit(bs, b);
    HasKeyConcat(Flatten(bs[..b]) + bs[b], Flatten(bs[b + 1..]), k);
    HasKeyConcat(Flatten(bs[..b]), bs[b], k);
  }

  /** Appending an entry whose key is new to the table, to any bucket, adds exactly
      that entry: one more element, the map extended at its key, keys still unique. */
  lemma AppendFresh<K, V>(bs: seq<seq<(K, V)>>, i: nat, e: (K, V))
    requires i < |bs|
    requires !HasKey(Flatten(bs), e.0)
    ensures multiset(Flatten(bs[i := bs[i] + [e]])) == multiset(Flatten(bs)) + multiset{e}
    ensures ToMap(Flatten(bs[i := bs[i] + [e]])) == ToMap(Flatten(bs))[e.0 := e.1]
    ensures UniqueKeys(Flatten(bs)) ==> UniqueKeys(Flatten(bs[i := bs[i] + [e]]))
  {
    var pre, c, post := Flatten(bs[..i]), bs[i], Flatten(bs[i + 1..]);
    FlattenSplit(bs, i);
    FlattenUpdate(bs, i, c + [e]);
    assert Flatten(bs[i := c + [e]]) == (pre + c) + [e] + post;
    assert Flatten(bs) == (pre + c) + post;
    assert !HasKey(post, e.0) by {
      HasKeyConcat(pre + c, post, e.0);
    }
    ToMapMiddle(pre + c, e, post);
    ToMapConcat(pre + c, post);
    UniqueMiddle(pre + c, e, post);
  }

  /** Appending an entry to any bucket adds exactly that entry to the flat reading. */
  lemma AppendMultiset<K, V>(bs: seq<seq<(K, V)>>, i: nat, e: (K, V))
    requires i < |bs|
    ensures multiset(Flatten(bs[i := bs[i] + [e]])) == multiset(Flatten(bs)) + multiset{e}
  {
    FlattenUpdate(bs, i, bs[i] + [e]);
    FlattenSplit(bs, i);
  }

  /** Appending an entry to the bucket its key hashes to keeps every entry placed
      and adds exactly that entry. */
  lemma AppendPlaced<K, V>(bs: seq<seq<(K, V)>>, hash: K -> nat, e: (K, V))
    requires |bs| > 0 && Placed(bs, hash)
    ensures var i := BucketIndex(hash, e.0, |bs|);
            Placed(bs[i := bs[i] + [e]], hash) &&
            multiset(Flatten(bs[i := bs[i] + [e]])) == multiset(Flatten(bs)) + multiset{e}
  {
    AppendMultiset(bs, BucketIndex(hash, e.0, |bs|), e);
  }

  /** With every entry placed, a key present anywhere is present in its own bucket. */
  lemma PlacedFind<K, V>(bs: seq<seq<(K, V)>>, hash: K -> nat, k: K)
    requires |bs| > 0 && Placed(bs, hash)
    requires HasKey(Flatten(bs), k)
    ensures HasKey(bs[BucketIndex(hash, k, |bs|)], k)
  {
    var b := KeyInSomeBucket(bs, k);
    var j :| 0 <= j < |bs[b]| && bs[b][j].0 == k;
  }

  /** Position `j` of bucket `i` is position `|Flatten(bs[..i])| + j` of the flat reading. */
  lemma FlattenAt<K, V>(bs: seq<seq<(K, V)>>, i: nat, j: nat)
    requires i < |bs| && j < |bs[i]|
    ensures |Flatten(bs[..i])| + j < |Flatten(bs)|
    ensures Flatten(bs)[|Flatten(bs[..i])| + j] == bs[i][j]
  {
    FlattenSplit(bs, i);
  }

  /** Overwriting one entry of one bucket overwrites the matching position of the
      flat reading. */
  lemma FlattenOverwrite<K, V>(bs: seq<seq<(K, V)>>, i: nat, j: nat, e: (K, V))
    requires i < |bs| && j < |bs[i]|
    ensures |Flatten(bs[..i])| + j < |Flatten(bs)|
    ensures Flatten(bs[i := bs[i][j := e]]) == Flatten(bs)[|Flatten(bs[..i])| + j := e]
  {
    var pre, c, post := Flatten(bs[..i]), bs[i], Flatten(bs[i + 1..]);
    FlattenSplit(bs, i);
    FlattenUpdate(bs, i, c[j := e]);
    assert pre + c[j := e] + post == (pre + c + post)[|pre| + j := e];
  }

  /** Unlinking one entry of one bucket unlinks the matching position of the flat
      reading. */
  lemma FlattenUnlink<K, V>(bs: seq<seq<(K, V)>>, i: nat, j: nat)
    requires i < |bs| && j < |bs[i]|
    ensures |Flatten(bs[..i])| + j < |Flatten(bs)|
    ensures var p := |Flatten(bs[..i])| + j;
            Flatten(bs[i := bs[i][..j] + bs[i][j + 1..]]) == Flatten(bs)[..p] + Flatten(bs)[p + 1..]
  {
    var pre, c, post := Flatten(bs[..i]), bs[i], Flatten(bs[i + 1..]);
    FlattenSplit(bs, i);
    FlattenUpdate(bs, i, c[..j] + c[j + 1..]);
    var f := pre + c + post;
    var p := |pre| + j;
    assert f[..p] == pre + c[..j];
    assert f[p + 1..] == c[j + 1..] + post;
  }

  /** Overwriting an entry with one of the same key keeps every entry placed. */
  lemma OverwritePlaced<K, V>(bs: seq<seq<(K, V)>>, hash: K -> nat, i: nat, j: nat, e: (K, V))
    requires i < |bs| && j < |bs[i]| && e.0 == bs[i][j].0
    requires Placed(bs, hash)
    ensures Placed(bs[i := bs[i][j := e]], hash)
  {
    var r: seq<seq<(K, V)>> := bs[i := bs[i][j := e]];
    forall b, m | 0 <= b < |r| && 0 <= m < |r[b]|
      ensures BucketIndex(hash, r[b][m].0, |r|) == b
    {
      assert r[b][m].0 == bs[b][m].0;
    }
  }

  /** Unlinking an entry keeps every remaining entry placed. */
  lemma UnlinkPlaced<K, V>(bs: seq<seq<(K, V)>>, hash: K -> nat, i: nat, j: nat)
    requires i < |bs| && j < |bs[i]|
    requires Placed(bs, hash)
    ensures Placed(bs[i := bs[i][..j] + bs[i][j + 1..]], hash)
  {
    var c := bs[i];
    var c' := c[..j] + c[j + 1..];
    var r: seq<seq<(K, V)>> := bs[i := c'];
    forall b, m | 0 <= b < |r| && 0 <= m < |r[b]|
      ensures BucketIndex(hash, r[b][m].0, |r|) == b
    {
      if b == i {
        if m < j { assert c'[m] == c[m]; } else { assert c'[m] == c[m + 1]; }
      }
    }
  }

  /** Every entry of `es`, in order, appended to the bucket its key hashes to among
      `n` buckets, starting from empty buckets. */
  function Distribute<K, V>(es: seq<(K, V)>, hash: K -> nat, n: nat): (r: seq<seq<(K, V)>>)
    requires n > 0
    ensures |r| == n
    ensures Placed(r, hash)
    ensures multiset(Flatten(r)) == multiset(es)
    decreases |es|
  {
    if es == [] then EmptyBuckets(n)
    else
      var init := es[..|es| - 1];
      var e := es[|es| - 1];
      var d := Distribute(init, hash, n);
      var i := BucketIndex(hash, e.0, n);
      assert init + [e] == es;
      AppendPlaced(d, hash, e);
      d[i := d[i] + [e]]
  }

  /** Rehash: every entry of the old buckets relocated into `n` fresh buckets, each
      under its index for the new bucket count. */
  function Rehash<K, V>(prev: seq<seq<(K, V)>>, hash: K -> nat, n: nat): (r: seq<seq<(K, V)>>)
    requires n > 0
    ensures |r| == n
    ensures Placed(r, hash)
    ensures multiset(Flatten(r)) == multiset(Flatten(prev))
  {
    Distribute(Flatten(prev), hash, n)
  }

  /** Distributing one more entry appends it to its bucket. */
  lemma DistributeSnoc<K, V>(es: seq<(K, V)>, e: (K, V), hash: K -> nat, n: nat)
    requires n > 0
    ensures var d := Distribute(es, hash, n);
            var i := BucketIndex(hash, e.0, n);
            Distribute(es + [e], hash, n) == d[i := d[i] + [e]]
  {
    assert (es + [e])[..|es|] == es;
  }

  /** Redistributing entries with unique keys keeps them unique and denotes the same map. */
  lemma {:induction false} DistributeKeepsMap<K, V>(es: seq<(K, V)>, hash: K -> nat, n: nat)
    requires n > 0
    requires UniqueKeys(es)
    ensures UniqueKeys(Flatten(Distribute(es, hash, n)))
    ensures ToMap(Flatten(Distribute(es, hash, n))) == ToMap(es)
    decreases |es|
  {
    if es != [] {
      var init := es[..|es| - 1];
      var e := es[|es| - 1];
      assert init + [e] == es;
      assert UniqueKeys(init) && !HasKey(init, e.0) by {
        UniqueConcat(init, [e]);
        assert HasKey([e], e.0) by { assert [e][0].0 == e.0; }
      }
      DistributeKeepsMap(init, hash, n);
      var d := Distribute(init, hash, n);
      assert !HasKey(Flatten(d), e.0) by {
        ToMapKeys(Flatten(d), e.0);
        ToMapKeys(init, e.0);
      }
      AppendFresh(d, BucketIndex(hash, e.0, n), e);
    }
  }

  /** Rehashing a table whose keys are unique keeps them unique and keeps its contents. */
  lemma RehashKeepsMap<K, V>(prev: seq<seq<(K, V)>>, hash: K -> nat, n: nat)
    requires n > 0
    requires UniqueKeys(Flatten(prev))
    ensures UniqueKeys(Flatten(Rehash(prev, hash, n)))
    ensures ToMap(Flatten(Rehash(prev, hash, n))) == ToMap(Flatten(prev))
  {
    DistributeKeepsMap(Flatten(prev), hash, n);
  }

  lemma ExtendPrefix<T>(front: seq<T>, s: seq<T>, j: nat)
    requires j < |s|
    ensures front + s[..j + 1] == (front + s[..j]) + [s[j]]
  {
    assert s[..j + 1] == s[..j] + [s[j]];
  }

  /** The rehash loop as written: walk the old buckets in order and each chain front
      to back, pushing every entry onto the back of its new bucket. */
  method RehashLoop<K, V>(prev: seq<seq<(K, V)>>, hash: K -> nat, n: nat) returns (nb: seq<seq<(K, V)>>)
    requires n > 0
    ensures nb == Rehash(prev, hash, n)
  {
    nb := EmptyBuckets(n);
    var b := 0;
    while b < |prev|
      invariant b <= |prev|
      invariant nb == Distribute(Flatten(prev[..b]), hash, n)
    {
      var chain := prev[b];
      var j := 0;
      assert Flatten(prev[..b]) + chain[..0] == Flatten(prev[..b]);
      while j < |chain|
        invariant j <= |chain|
        invariant nb == Distribute(Flatten(prev[..b]) + chain[..j], hash, n)
      {
        var e := chain[j];
        var es := Flatten(prev[..b]) + chain[..j];
        ExtendPrefix(Flatten(prev[..b]), chain, j);
        DistributeSnoc(es, e, hash, n);
        var i := BucketIndex(hash, e.0, n);
        nb := nb[i := nb[i] + [e]];
        j := j + 1;
      }
      assert chain[..j] == chain;
      ExtendPrefix([], prev, b);
      assert [] + prev[..b] == prev[..b] && [] + prev[..b + 1] == prev[..b + 1];
      FlattenSnoc(prev[..b], chain);
      assert Flatten(prev[..b + 1]) == Flatten(prev[..b]) + chain[..j];
      b := b + 1;
    }
    assert prev[..b] == prev;
  }
}
