/**
  A separately-chained hash table from keys to values. The table is an immutable
  value: every mutating operation returns the next table. The bucket index of a key
  is `hash(key) % capacity` for a hash function passed to each operation; the
  abstract contents of a table is the map its entries denote.
 */
module HashTable {
  import opened Entries
  import opened Buckets

  /** Bucket vector, bucket count and number of stored keys. */
  datatype Table<K, V> = Table(buckets: seq<seq<(K, V)>>, capacity: nat, filled: nat)

  /** Outcome of indexed access: the access itself, or the internal-consistency
      error raised when a key just inserted cannot be located again. */
  datatype Result<T> = Success(value: T) | Failure(message: string)

  /** The shape every operation relies on to index its bucket. */
  predicate WellFormed<K, V>(t: Table<K, V>)
  {
    t.capacity > 0 && |t.buckets| == t.capacity
  }

  /** The growth trigger `filled / capacity > 0.75`, as an exact integer comparison. */
  predicate OverLoaded(filled: nat, capacity: nat)
  {
    4 * filled > 3 * capacity
  }

  /** The invariant apart from the load bound: in-range shape, every entry in its
      key's bucket, keys unique across the table, `filled` counting the entries. */
  ghost predicate Coherent<K, V>(t: Table<K, V>, hash: K -> nat)
  {
    && WellFormed(t)
    && Placed(t.buckets, hash)
    && UniqueKeys(Flatten(t.buckets))
    && t.filled == |Flatten(t.buckets)|
  }

  /** The table invariant: coherent, and the load factor at most 3/4. */
  ghost predicate Valid<K, V>(t: Table<K, V>, hash: K -> nat)
  {
    Coherent(t, hash) && !OverLoaded(t.filled, t.capacity)
  }

  /** The map a table stands for. */
  ghost function Contents<K, V>(t: Table<K, V>): map<K, V>
  {
    ToMap(Flatten(t.buckets))
  }

  /** The bucket `key` belongs to in `t`. */
  function Home<K, V>(t: Table<K, V>, hash: K -> nat, key: K): (c: seq<(K, V)>)
    requires WellFormed(t)
  {
    t.buckets[BucketIndex(hash, key, t.capacity)]
  }

  /** Entries keep their keys and positions; only entries with key `key` may differ. */
  ghost predicate OnlyValueOf<K, V>(prev: seq<seq<(K, V)>>, next: seq<seq<(K, V)>>, key: K)
  {
    && |next| == |prev|
    && (forall b :: 0 <= b < |prev| ==> |next[b]| == |prev[b]|)
    && (forall b, j :: 0 <= b < |prev| && 0 <= j < |prev[b]| ==>
          next[b][j].0 == prev[b][j].0 && (prev[b][j].0 != key ==> next[b][j] == prev[b][j]))
  }

  /** A table of `size` empty buckets. A size of zero is excluded: the bucket index
      would then be a remainder modulo zero. */
  function Create<K, V>(size: nat): (t: Table<K, V>)
    requires size > 0
    ensures WellFormed(t) && t.capacity == size && t.filled == 0
    ensures Contents(t) == map[]
  {
    Table(EmptyBuckets(size), size, 0)
  }

  /** A new table satisfies the invariant whatever the hash function. */
  lemma CreateValid<K, V>(size: nat, hash: K -> nat)
    requires size > 0
    ensures Valid(Create<K, V>(size), hash)
  {
  }

  /** The load factor, as an exact rational. */
  function LoadFactor<K, V>(t: Table<K, V>): real
    requires t.capacity > 0
  {
    t.filled as real / t.capacity as real
  }

  lemma Scale(x: real, y: real, c: real)
    requires c > 0.0
    ensures x <= y ==> x * c <= y * c
    ensures x < y ==> x * c < y * c
  {
  }

  /** The integer growth trigger agrees with comparing the load factor against 0.75. */
  lemma LoadFactorTest<K, V>(t: Table<K, V>)
    requires t.capacity > 0
    ensures LoadFactor(t) > 0.75 <==> OverLoaded(t.filled, t.capacity)
  {
    var f, c := t.filled as real, t.capacity as real;
    var q := f / c;
    assert q * c == f;
    Scale(0.75, q, c);
    Scale(q, 0.75, c);
    assert (4 * t.filled) as real == 4.0 * f && (3 * t.capacity) as real == 3.0 * c;
    assert OverLoaded(t.filled, t.capacity) <==> f > 0.75 * c;
    assert LoadFactor(t) == q;
    assert q > 0.75 ==> f > 0.75 * c;
    assert f > 0.75 * c ==> q > 0.75;
  }

  /** Growth: double the bucket count and rehash every entry under the new count. */
  function Grow<K, V>(t: Table<K, V>, hash: K -> nat): (r: Table<K, V>)
    requires WellFormed(t)
    ensures WellFormed(r) && r.capacity == 2 * t.capacity && r.filled == t.filled
    ensures Placed(r.buckets, hash)
    ensures multiset(Flatten(r.buckets)) == multiset(Flatten(t.buckets))
  {
    var n := 2 * t.capacity;
    Table(Rehash(t.buckets, hash, n), n, t.filled)
  }

  /** Growth of a table with unique keys keeps its keys unique and its contents. */
  lemma GrowKeepsContents<K, V>(t: Table<K, V>, hash: K -> nat)
    requires WellFormed(t)
    requires UniqueKeys(Flatten(t.buckets))
    ensures UniqueKeys(Flatten(Grow(t, hash).buckets))
    ensures Contents(Grow(t, hash)) == Contents(t)
  {
    RehashKeepsMap(t.buckets, hash, 2 * t.capacity);
  }

  /** Under the invariant, a key's own bucket tells whether it is stored, and any
      entry for it there carries its value. */
  lemma HomeAgrees<K, V>(t: Table<K, V>, hash: K -> nat, key: K)
    requires Valid(t, hash)
    ensures HasKey(Home(t, hash, key), key) <==> key in Contents(t)
    ensures forall j :: 0 <= j < |Home(t, hash, key)| && Home(t, hash, key)[j].0 == key ==>
              Contents(t)[key] == Home(t, hash, key)[j].1
  {
    var i := BucketIndex(hash, key, t.capacity);
    var f := Flatten(t.buckets);
    ToMapKeys(f, key);
    if HasKey(t.buckets[i], key) {
      KeyInFlatten(t.buckets, i, key);
    }
    if key in Contents(t) {
      PlacedFind(t.buckets, hash, key);
    }
    forall j | 0 <= j < |t.buckets[i]| && t.buckets[i][j].0 == key
      ensures Contents(t)[key] == t.buckets[i][j].1
    {
      FlattenAt(t.buckets, i, j);
      ToMapValue(f, |Flatten(t.buckets[..i])| + j);
    }
  }

  /** Lookup: scan the key's bucket; report the first matching entry's value, or
      hand back `value` untouched when there is none. */
  function Find<K(==), V>(t: Table<K, V>, hash: K -> nat, key: K, value: V): (r: (bool, V))
    requires WellFormed(t)
    ensures r.0 <==> HasKey(Home(t, hash, key), key)
    ensures !r.0 ==> r.1 == value
    ensures r.0 ==> exists j :: 0 <= j < |Home(t, hash, key)| && Home(t, hash, key)[j] == (key, r.1)
  {
    var c := Home(t, hash, key);
    match Position(c, key)
    case Some(j) => (true, c[j].1)
    case None => (false, value)
  }

  /** Find reports a key as present exactly when the table holds it, with its value. */
  lemma FindCorrect<K, V>(t: Table<K, V>, hash: K -> nat, key: K, value: V)
    requires Valid(t, hash)
    ensures Find(t, hash, key, value).0 <==> key in Contents(t)
    ensures key in Contents(t) ==> Find(t, hash, key, value).1 == Contents(t)[key]
    ensures key !in Contents(t) ==> Find(t, hash, key, value).1 == value
  {
    HomeAgrees(t, hash, key);
  }

  /** The append step shared by insertion and indexed access: the entry goes to the
      back of its key's bucket and is counted. */
  function Append<K, V>(t: Table<K, V>, hash: K -> nat, key: K, value: V): (r: Table<K, V>)
    requires WellFormed(t)
    ensures WellFormed(r) && r.capacity == t.capacity && r.filled == t.filled + 1
    ensures multiset(Flatten(r.buckets)) == multiset(Flatten(t.buckets)) + multiset{(key, value)}
    ensures HasKey(Home(r, hash, key), key)
  {
    var i := BucketIndex(hash, key, t.capacity);
    AppendMultiset(t.buckets, i, (key, value));
    assert (t.buckets[i] + [(key, value)])[|t.buckets[i]|].0 == key;
    Table(t.buckets[i := t.buckets[i] + [(key, value)]], t.capacity, t.filled + 1)
  }

  /** Appending a key the table does not hold keeps it coherent and extends the
      contents by that key. */
  lemma AppendCorrect<K, V>(t: Table<K, V>, hash: K -> nat, key: K, value: V)
    requires Coherent(t, hash)
    requires key !in Contents(t)
    ensures Coherent(Append(t, hash, key, value), hash)
    ensures Contents(Append(t, hash, key, value)) == Contents(t)[key := value]
  {
    var f := Flatten(t.buckets);
    ToMapKeys(f, key);
    AppendFresh(t.buckets, BucketIndex(hash, key, t.capacity), (key, value));
    AppendPlaced(t.buckets, hash, (key, value));
    var r := Append(t, hash, key, value);
    assert |Flatten(r.buckets)| == |f| + 1 by {
      assert |multiset(Flatten(r.buckets))| == |multiset(f)| + 1;
    }
  }

  /** The growth check after an append: grow when the load factor exceeds 3/4. */
  function GrowIfOverLoaded<K, V>(t: Table<K, V>, hash: K -> nat): (r: Table<K, V>)
    requires WellFormed(t)
    ensures WellFormed(r) && r.filled == t.filled
    ensures r.capacity == (if OverLoaded(t.filled, t.capacity) then 2 * t.capacity else t.capacity)
    ensures multiset(Flatten(r.buckets)) == multiset(Flatten(t.buckets))
  {
    if OverLoaded(t.filled, t.capacity) then Grow(t, hash) else t
  }

  /** The growth check keeps a coherent table coherent with the same contents, and
      brings a table at most one entry over the bound back within it. */
  lemma GrowIfOverLoadedCorrect<K, V>(t: Table<K, V>, hash: K -> nat)
    requires Coherent(t, hash)
    requires t.filled == 0 || !OverLoaded(t.filled - 1, t.capacity)
    ensures Valid(GrowIfOverLoaded(t, hash), hash)
    ensures Contents(GrowIfOverLoaded(t, hash)) == Contents(t)
  {
    if OverLoaded(t.filled, t.capacity) {
      GrowKeepsContents(t, hash);
      var g := Grow(t, hash);
      assert |Flatten(g.buckets)| == |Flatten(t.buckets)| by {
        assert |multiset(Flatten(g.buckets))| == |multiset(Flatten(t.buckets))|;
      }
    }
  }

  /** A key findable in its bucket stays findable across the growth check. */
  lemma GrowIfOverLoadedFinds<K, V>(t: Table<K, V>, hash: K -> nat, key: K)
    requires WellFormed(t)
    requires HasKey(Home(t, hash, key), key)
    ensures HasKey(Home(GrowIfOverLoaded(t, hash), hash, key), key)
  {
    if OverLoaded(t.filled, t.capacity) {
      var g := Grow(t, hash);
      KeyInFlatten(t.buckets, BucketIndex(hash, key, t.capacity), key);
      var p :| 0 <= p < |Flatten(t.buckets)| && Flatten(t.buckets)[p].0 == key;
      var e := Flatten(t.buckets)[p];
      assert e in multiset(Flatten(g.buckets));
      var q :| 0 <= q < |Flatten(g.buckets)| && Flatten(g.buckets)[q] == e;
      PlacedFind(g.buckets, hash, key);
    }
  }

  /** Insertion: overwrite the value of an entry already in the key's bucket and
      stop; otherwise append the entry, count it, and grow when over the bound. */
  function Insert<K(==), V>(t: Table<K, V>, hash: K -> nat, key: K, value: V): (r: Table<K, V>)
    requires WellFormed(t)
    ensures WellFormed(r)
    ensures HasKey(Home(t, hash, key), key) ==>
              r.capacity == t.capacity && r.filled == t.filled && OnlyValueOf(t.buckets, r.buckets, key)
    ensures !HasKey(Home(t, hash, key), key) ==>
              r.filled == t.filled + 1 &&
              r.capacity == (if OverLoaded(t.filled + 1, t.capacity) then 2 * t.capacity else t.capacity) &&
              multiset(Flatten(r.buckets)) == multiset(Flatten(t.buckets)) + multiset{(key, value)}
  {
    var i := BucketIndex(hash, key, t.capacity);
    var c := t.buckets[i];
    match Position(c, key)
    case Some(j) => t.(buckets := t.buckets[i := c[j := (key, value)]])
    case None => GrowIfOverLoaded(Append(t, hash, key, value), hash)
  }

  /** Overwriting the value of a stored key in place keeps the table coherent and
      updates the contents at that key. */
  lemma OverwriteCorrect<K, V>(t: Table<K, V>, hash: K -> nat, i: nat, j: nat, value: V)
    requires Coherent(t, hash)
    requires i < t.capacity && j < |t.buckets[i]|
    ensures var r := t.(buckets := t.buckets[i := t.buckets[i][j := (t.buckets[i][j].0, value)]]);
            Coherent(r, hash) && Contents(r) == Contents(t)[t.buckets[i][j].0 := value]
  {
    var e := (t.buckets[i][j].0, value);
    var f := Flatten(t.buckets);
    var p := |Flatten(t.buckets[..i])| + j;
    FlattenAt(t.buckets, i, j);
    FlattenOverwrite(t.buckets, i, j, e);
    ToMapOverwrite(f, p, value);
    OverwritePlaced(t.buckets, hash, i, j, e);
  }

  /** Insertion keeps the invariant and maps `key` to `value`, leaving every other
      key's value as it was. */
  lemma InsertCorrect<K, V>(t: Table<K, V>, hash: K -> nat, key: K, value: V)
    requires Valid(t, hash)
    ensures Valid(Insert(t, hash, key, value), hash)
    ensures Contents(Insert(t, hash, key, value)) == Contents(t)[key := value]
    ensures HasKey(Home(t, hash, key), key) <==> key in Contents(t)
  {
    HomeAgrees(t, hash, key);
    var i := BucketIndex(hash, key, t.capacity);
    match Position(t.buckets[i], key)
    case Some(j) =>
      OverwriteCorrect(t, hash, i, j, value);
    case None =>
      AppendCorrect(t, hash, key, value);
      GrowIfOverLoadedCorrect(Append(t, hash, key, value), hash);
  }

  /** Removal: unlink the first entry with the key from its bucket and count it out;
      without such an entry, nothing changes. The decrement relies on `filled`
      counting the entries, so that it cannot go below zero. */
  function Remove<K(==), V>(t: Table<K, V>, hash: K -> nat, key: K): (r: Table<K, V>)
    requires WellFormed(t) && t.filled == |Flatten(t.buckets)|
    ensures WellFormed(r) && r.capacity == t.capacity
    ensures r.filled == |Flatten(r.buckets)|
    ensures !HasKey(Home(t, hash, key), key) ==> r == t
    ensures HasKey(Home(t, hash, key), key) ==>
              r.filled == t.filled - 1 &&
              multiset(Flatten(r.buckets)) <= multiset(Flatten(t.buckets)) &&
              forall e :: e in multiset(Flatten(t.buckets)) - multiset(Flatten(r.buckets)) ==> e.0 == key
    ensures forall b :: 0 <= b < t.capacity && b != BucketIndex(hash, key, t.capacity) ==>
              r.buckets[b] == t.buckets[b]
  {
    var i := BucketIndex(hash, key, t.capacity);
    var c := t.buckets[i];
    match Position(c, key)
    case Some(j) =>
      UnlinkCounts(t.buckets, i, j);
      Table(t.buckets[i := c[..j] + c[j + 1..]], t.capacity, t.filled - 1)
    case None => t
  }

  /** Unlinking one entry removes exactly that entry from the flat reading. */
  lemma UnlinkCounts<K, V>(bs: seq<seq<(K, V)>>, i: nat, j: nat)
    requires i < |bs| && j < |bs[i]|
    ensures var r := bs[i := bs[i][..j] + bs[i][j + 1..]];
            |Flatten(bs)| > 0 && |Flatten(r)| == |Flatten(bs)| - 1 &&
            multiset(Flatten(r)) + multiset{bs[i][j]} == multiset(Flatten(bs))
  {
    FlattenUnlink(bs, i, j);
    FlattenAt(bs, i, j);
    MultisetUnlink(Flatten(bs), |Flatten(bs[..i])| + j);
  }

  /** Removal keeps the invariant and drops `key`, and only `key`, from the contents. */
  lemma RemoveCorrect<K, V>(t: Table<K, V>, hash: K -> nat, key: K)
    requires Valid(t, hash)
    ensures Valid(Remove(t, hash, key), hash)
    ensures Contents(Remove(t, hash, key)) == Contents(t) - {key}
    ensures key in Contents(t) ==> Remove(t, hash, key).filled == t.filled - 1
    ensures key !in Contents(t) ==> Remove(t, hash, key) == t
  {
    HomeAgrees(t, hash, key);
    var i := BucketIndex(hash, key, t.capacity);
    match Position(t.buckets[i], key)
    case Some(j) =>
      UnlinkCounts(t.buckets, i, j);
      UnlinkCorrect(t, hash, i, j);
    case None =>
      ToMapKeys(Flatten(t.buckets), key);
      assert Contents(t) - {key} == Contents(t);
  }

  /** Unlinking a stored entry and counting it out keeps the table coherent and drops
      that entry's key from the contents. */
  lemma UnlinkCorrect<K, V>(t: Table<K, V>, hash: K -> nat, i: nat, j: nat)
    requires Coherent(t, hash)
    requires i < t.capacity && j < |t.buckets[i]| && t.filled > 0
    ensures var r := Table(t.buckets[i := t.buckets[i][..j] + t.buckets[i][j + 1..]], t.capacity, t.filled - 1);
            Coherent(r, hash) && Contents(r) == Contents(t) - {t.buckets[i][j].0}
  {
    FlattenAt(t.buckets, i, j);
    FlattenUnlink(t.buckets, i, j);
    ToMapDelete(Flatten(t.buckets), |Flatten(t.buckets[..i])| + j);
    UnlinkPlaced(t.buckets, hash, i, j);
  }

  /** Indexed access: return the stored value of `key`; when absent, append it with
      the default value, count it, grow when over the bound, then locate the key again
      under the possibly new bucket count. Not finding it there is the internal error. */
  function Subscript<K(==), V>(t: Table<K, V>, hash: K -> nat, key: K, default: V): (r: Result<(Table<K, V>, V)>)
    requires WellFormed(t)
    ensures r.Success?
    ensures HasKey(Home(t, hash, key), key) ==> r.value.0 == t
    ensures !HasKey(Home(t, hash, key), key) ==> r.value.0 == Insert(t, hash, key, default)
    ensures exists j :: 0 <= j < |Home(r.value.0, hash, key)| && Home(r.value.0, hash, key)[j] == (key, r.value.1)
  {
    var c := Home(t, hash, key);
    match Position(c, key)
    case Some(j) => Success((t, c[j].1))
    case None =>
      var t' := Append(t, hash, key, default);
      GrowIfOverLoadedFinds(t', hash, key);
      var t'' := GrowIfOverLoaded(t', hash);
      var c'' := Home(t'', hash, key);
      match Position(c'', key)
      case Some(j) => Success((t'', c''[j].1))
      case None => Failure("error in operator")
  }

  /** Indexed access keeps the invariant; it returns the stored value of a present key
      and changes nothing, and stores and returns the default for an absent key. */
  lemma SubscriptCorrect<K, V>(t: Table<K, V>, hash: K -> nat, key: K, default: V)
    requires Valid(t, hash)
    ensures var r := Subscript(t, hash, key, default).value;
            && Valid(r.0, hash)
            && (key in Contents(t) ==> r.0 == t && r.1 == Contents(t)[key])
            && (key !in Contents(t) ==> r.1 == default && Contents(r.0) == Contents(t)[key := default])
  {
    var r := Subscript(t, hash, key, default).value;
    HomeAgrees(t, hash, key);
    InsertCorrect(t, hash, key, default);
    HomeAgrees(r.0, hash, key);
  }
}
