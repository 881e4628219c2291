/**
  Properties that relate several operations of the hash table: round trips through
  lookup, the map semantics of any sequence of operations, and the growth scenario
  at the 3/4 load-factor boundary.
 */
module Properties {
  import opened Entries
  import opened Buckets
  import opened HashTable

  /** After inserting `key` with `value`, lookup finds exactly that value. */
  lemma InsertThenFind<K, V>(t: Table<K, V>, hash: K -> nat, key: K, value: V, out: V)
    requires Valid(t, hash)
    ensures Find(Insert(t, hash, key, value), hash, key, out) == (true, value)
  {
    InsertCorrect(t, hash, key, value);
    FindCorrect(Insert(t, hash, key, value), hash, key, out);
  }

  /** Inserting a key already stored changes neither the count nor the bucket count. */
  lemma InsertExistingKeepsSize<K, V>(t: Table<K, V>, hash: K -> nat, key: K, value: V)
    requires Valid(t, hash)
    requires key in Contents(t)
    ensures Insert(t, hash, key, value).filled == t.filled
    ensures Insert(t, hash, key, value).capacity == t.capacity
  {
    InsertCorrect(t, hash, key, value);
  }

  /** After removing `key`, lookup reports it absent and leaves the output untouched. */
  lemma RemoveThenFind<K, V>(t: Table<K, V>, hash: K -> nat, key: K, out: V)
    requires Valid(t, hash)
    ensures Find(Remove(t, hash, key), hash, key, out) == (false, out)
  {
    RemoveCorrect(t, hash, key);
    FindCorrect(Remove(t, hash, key), hash, key, out);
  }

  /** Indexed access of an absent key stores the default, which lookup then finds. */
  lemma SubscriptThenFind<K, V>(t: Table<K, V>, hash: K -> nat, key: K, default: V, out: V)
    requires Valid(t, hash)
    requires key !in Contents(t)
    ensures var r := Subscript(t, hash, key, default).value.0;
            r.filled == t.filled + 1 && Find(r, hash, key, out) == (true, default)
  {
    var r := Subscript(t, hash, key, default).value.0;
    SubscriptCorrect(t, hash, key, default);
    InsertCorrect(t, hash, key, default);
    FindCorrect(r, hash, key, out);
  }

  /** A mutating call on the table. */
  datatype Op<K, V> = Put(key: K, value: V) | Erase(key: K) | Access(key: K)

  /** The meaning of one call on the map the table stands for. */
  function MapStep<K, V>(m: map<K, V>, op: Op<K, V>, default: V): map<K, V>
  {
    match op
    case Put(k, v) => m[k := v]
    case Erase(k) => m - {k}
    case Access(k) => if k in m then m else m[k := default]
  }

  /** The meaning of a sequence of calls on the map the table stands for. */
  function MapRun<K, V>(m: map<K, V>, ops: seq<Op<K, V>>, default: V): map<K, V>
    decreases |ops|
  {
    if ops == [] then m else MapRun(MapStep(m, ops[0], default), ops[1..], default)
  }

  /** One call on the table. */
  function Step<K(==), V>(t: Table<K, V>, hash: K -> nat, op: Op<K, V>, default: V): (r: Table<K, V>)
    requires Valid(t, hash)
    ensures Valid(r, hash)
    ensures r.capacity >= t.capacity
    ensures Contents(r) == MapStep(Contents(t), op, default)
  {
    match op
    case Put(k, v) => InsertCorrect(t, hash, k, v); Insert(t, hash, k, v)
    case Erase(k) => RemoveCorrect(t, hash, k); Remove(t, hash, k)
    case Access(k) => SubscriptCorrect(t, hash, k, default); Subscript(t, hash, k, default).value.0
  }

  /** Any sequence of calls keeps the invariant, never shrinks the bucket vector, and
      leaves the table standing for the map the same calls produce on a plain map. */
  function Run<K(==), V>(t: Table<K, V>, hash: K -> nat, ops: seq<Op<K, V>>, default: V): (r: Table<K, V>)
    requires Valid(t, hash)
    ensures Valid(r, hash)
    ensures r.capacity >= t.capacity
    ensures Contents(r) == MapRun(Contents(t), ops, default)
    decreases |ops|
  {
    if ops == [] then t else Run(Step(t, hash, ops[0], default), hash, ops[1..], default)
  }

  /** Inserting a key the table does not hold, stated on its own for chaining. */
  lemma InsertFresh<K, V>(t: Table<K, V>, hash: K -> nat, key: K, value: V)
    requires Valid(t, hash)
    requires key !in Contents(t)
    ensures var r := Insert(t, hash, key, value);
            && Valid(r, hash)
            && r.filled == t.filled + 1
            && r.capacity == (if OverLoaded(t.filled + 1, t.capacity) then 2 * t.capacity else t.capacity)
            && Contents(r) == Contents(t)[key := value]
  {
    InsertCorrect(t, hash, key, value);
  }

  /** Three distinct keys fit into four buckets: the table is never over the bound
      on the way, so no growth happens. */
  lemma ThreeFit<K, V>(hash: K -> nat, a: K, b: K, c: K, va: V, vb: V, vc: V)
    requires a != b && a != c && b != c
    ensures var t3 := Insert(Insert(Insert(Create<K, V>(4), hash, a, va), hash, b, vb), hash, c, vc);
            && Valid(t3, hash) && t3.capacity == 4 && t3.filled == 3
            && Contents(t3) == map[a := va, b := vb, c := vc]
  {
    var t0 := Create<K, V>(4);
    CreateValid<K, V>(4, hash);
    var t1 := Insert(t0, hash, a, va);
    InsertFresh(t0, hash, a, va);
    var t2 := Insert(t1, hash, b, vb);
    InsertFresh(t1, hash, b, vb);
    InsertFresh(t2, hash, c, vc);
  }

  /** A fourth distinct key tips a full four-bucket table over the bound: the bucket
      count doubles, and every stored key stays retrievable. */
  lemma FourthGrows<K, V>(t: Table<K, V>, hash: K -> nat, a: K, b: K, c: K, d: K, va: V, vb: V, vc: V, vd: V, out: V)
    requires Valid(t, hash) && t.capacity == 4 && t.filled == 3
    requires Contents(t) == map[a := va, b := vb, c := vc]
    requires d != a && d != b && d != c
    ensures LoadFactor(t) == 0.75
    ensures var r := Insert(t, hash, d, vd);
            && r.capacity == 8 && r.filled == 4
            && Find(r, hash, a, out) == (true, Contents(t)[a])
            && Find(r, hash, b, out) == (true, Contents(t)[b])
            && Find(r, hash, c, out) == (true, Contents(t)[c])
            && Find(r, hash, d, out) == (true, vd)
  {
    var r := Insert(t, hash, d, vd);
    InsertFresh(t, hash, d, vd);
    FindCorrect(r, hash, a, out);
    FindCorrect(r, hash, b, out);
    FindCorrect(r, hash, c, out);
    FindCorrect(r, hash, d, out);
  }

  /** Four buckets take three distinct keys at load factor exactly 3/4 without
      growing; a fourth distinct key doubles the bucket count, and all four stay
      retrievable. This holds whatever the hash function. */
  lemma GrowthScenario<K, V>(hash: K -> nat, a: K, b: K, c: K, d: K, va: V, vb: V, vc: V, vd: V, out: V)
    requires a != b && a != c && a != d && b != c && b != d && c != d
    ensures var t3 := Insert(Insert(Insert(Create<K, V>(4), hash, a, va), hash, b, vb), hash, c, vc);
            var t4 := Insert(t3, hash, d, vd);
            && t3.capacity == 4 && t3.filled == 3 && LoadFactor(t3) == 0.75
            && t4.capacity == 8 && t4.filled == 4
            && Find(t4, hash, a, out) == (true, va)
            && Find(t4, hash, b, out) == (true, vb)
            && Find(t4, hash, c, out) == (true, vc)
            && Find(t4, hash, d, out) == (true, vd)
  {
    var t3 := Insert(Insert(Insert(Create<K, V>(4), hash, a, va), hash, b, vb), hash, c, vc);
    ThreeFit(hash, a, b, c, va, vb, vc);
    FourthGrows(t3, hash, a, b, c, d, va, vb, vc, vd, out);
  }
}
