/**
  Flat sequences of (key, value) entries: the shape of one bucket's chain and of
  the whole table read bucket after bucket. Everything here is independent of
  hashing; the table-level modules build on it.
 */
module Entries {

  /** The conventional optional value, used for the position of a key in a chain. */
  datatype Option<T> = None | Some(value: T)

  /** Some entry of `es` carries key `k`. */
  ghost predicate HasKey<K, V>(es: seq<(K, V)>, k: K)
  {
    exists j :: 0 <= j < |es| && es[j].0 == k
  }

  /** No key occurs twice in `es`. */
  ghost predicate UniqueKeys<K, V>(es: seq<(K, V)>)
  {
    forall p, q :: 0 <= p < q < |es| ==> es[p].0 != es[q].0
  }

  /** Position of the first entry of chain `c` with key `k`, scanning from the front
      as a walk over a linked list does. */
  function Position<K(==), V>(c: seq<(K, V)>, k: K): (r: Option<nat>)
    ensures r.Some? ==> r.value < |c| && c[r.value].0 == k
    ensures r.Some? ==> forall j :: 0 <= j < r.value ==> c[j].0 != k
    ensures r.None? <==> !HasKey(c, k)
  {
    if c == [] then None
    else if c[0].0 == k then Some(0)
    else
      match Position(c[1..], k)
      case None => assert forall j :: 1 <= j < |c| ==> c[j] == c[1..][j - 1]; None
      case Some(j) => Some(j + 1)
  }

  /** The map an entry sequence denotes: a later entry for a key overrides an
      earlier one, which is immaterial when keys are unique. */
  ghost function ToMap<K, V>(es: seq<(K, V)>): map<K, V>
    decreases |es|
  {
    if es == [] then map[] else ToMap(es[..|es| - 1])[es[|es| - 1].0 := es[|es| - 1].1]
  }

  /** The keys of the denoted map are exactly the keys of the entries. */
  lemma {:induction false} ToMapKeys<K, V>(es: seq<(K, V)>, k: K)
    ensures k in ToMap(es) <==> HasKey(es, k)
    decreases |es|
  {
    if es != [] {
      var init := es[..|es| - 1];
      ToMapKeys(init, k);
      HasKeyConcat(init, [es[|es| - 1]], k);
      assert init + [es[|es| - 1]] == es;
      assert HasKey([es[|es| - 1]], k) <==> es[|es| - 1].0 == k by {
        if es[|es| - 1].0 == k { assert [es[|es| - 1]][0].0 == k; }
      }
    }
  }

  /** With unique keys every entry is read back from the denoted map. */
  lemma {:induction false} ToMapValue<K, V>(es: seq<(K, V)>, j: nat)
    requires j < |es|
    requires UniqueKeys(es)
    ensures es[j].0 in ToMap(es) && ToMap(es)[es[j].0] == es[j].1
    decreases |es|
  {
    var init := es[..|es| - 1];
    if j < |es| - 1 {
      assert UniqueKeys(init) by {
        forall p, q | 0 <= p < q < |init| ensures init[p].0 != init[q].0 {
          assert init[p] == es[p] && init[q] == es[q];
        }
      }
      assert es[|es| - 1].0 != es[j].0;
      assert init[j] == es[j];
      ToMapValue(init, j);
    }
  }

  lemma HasKeyConcat<K, V>(x: seq<(K, V)>, y: seq<(K, V)>, k: K)
    ensures HasKey(x + y, k) <==> HasKey(x, k) || HasKey(y, k)
  {
    if HasKey(x + y, k) {
      var j :| 0 <= j < |x + y| && (x + y)[j].0 == k;
      if j >= |x| {
        assert y[j - |x|].0 == k;
      }
    }
    if HasKey(x, k) {
      var j :| 0 <= j < |x| && x[j].0 == k;
      assert (x + y)[j].0 == k;
    }
    if HasKey(y, k) {
      var j :| 0 <= j < |y| && y[j].0 == k;
      assert (x + y)[|x| + j].0 == k;
    }
  }

  /** Keys of a concatenation are unique exactly when each part has unique keys
      and no key occurs in both parts. */
  lemma UniqueConcat<K, V>(x: seq<(K, V)>, y: seq<(K, V)>)
    ensures UniqueKeys(x + y) <==>
              UniqueKeys(x) && UniqueKeys(y) && forall k :: HasKey(x, k) ==> !HasKey(y, k)
  {
    var xy := x + y;
    if UniqueKeys(xy) {
      assert UniqueKeys(x) by {
        forall p, q | 0 <= p < q < |x| ensures x[p].0 != x[q].0 {
          assert x[p] == xy[p] && x[q] == xy[q];
        }
      }
      assert UniqueKeys(y) by {
        forall p, q | 0 <= p < q < |y| ensures y[p].0 != y[q].0 {
          assert y[p] == xy[|x| + p] && y[q] == xy[|x| + q];
        }
      }
      forall p, q | 0 <= p < |x| && 0 <= q < |y| ensures x[p].0 != y[q].0 {
        assert xy[p] == x[p] && xy[|x| + q] == y[q];
      }
    }
    if UniqueKeys(x) && UniqueKeys(y) && forall k :: HasKey(x, k) ==> !HasKey(y, k) {
      forall p, q | 0 <= p < q < |xy| ensures xy[p].0 != xy[q].0 {
        if q < |x| {
          assert xy[p] == x[p] && xy[q] == x[q];
        } else if p >= |x| {
          assert xy[p] == y[p - |x|] && xy[q] == y[q - |x|];
        } else {
          assert xy[p] == x[p] && xy[q] == y[q - |x|];
          assert HasKey(x, xy[p].0);
          assert HasKey(y, xy[q].0);
        }
      }
    }
  }

  /** Unlinking position `p` of a sequence removes exactly that element. */
  lemma MultisetUnlink<T>(s: seq<T>, p: nat)
    requires p < |s|
    ensures |s[..p] + s[p + 1..]| == |s| - 1
    ensures multiset(s[..p] + s[p + 1..]) + multiset{s[p]} == multiset(s)
  {
    assert s == s[..p] + [s[p]] + s[p + 1..];
  }

  /** The map of a concatenation is the right-biased union of the parts' maps. */
  lemma {:induction false} ToMapConcat<K, V>(x: seq<(K, V)>, y: seq<(K, V)>)
    ensures ToMap(x + y) == ToMap(x) + ToMap(y)
    decreases |y|
  {
    if y == [] {
      assert x + y == x;
    } else {
      var init := y[..|y| - 1];
      var last := y[|y| - 1];
      assert (x + y)[..|x + y| - 1] == x + init;
      assert (x + y)[|x + y| - 1] == last;
      ToMapConcat(x, init);
    }
  }

  /** The map of a single entry. */
  lemma ToMapSingle<K, V>(e: (K, V))
    ensures ToMap([e]) == map[e.0 := e.1]
  {
    assert [e][..0] == [];
  }

  /** The map of a chain with one entry singled out in the middle, when no later
      entry shares its key. */
  lemma ToMapMiddle<K, V>(pre: seq<(K, V)>, e: (K, V), post: seq<(K, V)>)
    requires !HasKey(post, e.0)
    ensures ToMap(pre + [e] + post) == (ToMap(pre) + ToMap(post))[e.0 := e.1]
  {
    ToMapConcat(pre + [e], post);
    ToMapConcat(pre, [e]);
    ToMapSingle(e);
    ToMapKeys(post, e.0);
  }

  /** A chain with one entry singled out has unique keys exactly when the rest
      has unique keys and does not mention that entry's key. */
  lemma UniqueMiddle<K, V>(pre: seq<(K, V)>, e: (K, V), post: seq<(K, V)>)
    ensures UniqueKeys(pre + [e] + post) <==> UniqueKeys(pre + post) && !HasKey(pre + post, e.0)
  {
    var k := e.0;
    assert HasKey([e], k) by { assert [e][0].0 == k; }
    assert forall k' :: HasKey([e], k') ==> k' == k;
    assert UniqueKeys([e]);
    UniqueConcat(pre + [e], post);
    UniqueConcat(pre, [e]);
    UniqueConcat(pre, post);
    HasKeyConcat(pre, post, k);
    forall k' ensures HasKey(pre + [e], k') <==> HasKey(pre, k') || k' == k {
      HasKeyConcat(pre, [e], k');
    }
  }

  /** Overwriting the value at position `j` of a chain with unique keys updates the
      denoted map at that entry's key and keeps the keys unique. */
  lemma ToMapOverwrite<K, V>(c: seq<(K, V)>, j: nat, v: V)
    requires j < |c|
    requires UniqueKeys(c)
    ensures UniqueKeys(c[j := (c[j].0, v)])
    ensures ToMap(c[j := (c[j].0, v)]) == ToMap(c)[c[j].0 := v]
  {
    var k := c[j].0;
    var pre, post := c[..j], c[j + 1..];
    var c' := c[j := (k, v)];
    assert c == pre + [c[j]] + post;
    assert c' == pre + [(k, v)] + post;
    assert UniqueKeys(pre + post) && !HasKey(pre + post, k) by {
      UniqueMiddle(pre, c[j], post);
    }
    assert UniqueKeys(c') by {
      UniqueMiddle(pre, (k, v), post);
    }
    assert !HasKey(post, k) by {
      HasKeyConcat(pre, post, k);
    }
    assert ToMap(c) == (ToMap(pre) + ToMap(post))[k := c[j].1] by {
      ToMapMiddle(pre, c[j], post);
    }
    assert ToMap(c') == (ToMap(pre) + ToMap(post))[k := v] by {
      ToMapMiddle(pre, (k, v), post);
    }
  }

  /** Unlinking the entry at position `j` of a chain with unique keys removes that
      entry's key from the denoted map and nothing else. */
  lemma ToMapDelete<K, V>(c: seq<(K, V)>, j: nat)
    requires j < |c|
    requires UniqueKeys(c)
    ensures UniqueKeys(c[..j] + c[j + 1..])
    ensures ToMap(c[..j] + c[j + 1..]) == ToMap(c) - {c[j].0}
  {
    var k := c[j].0;
    var pre, post := c[..j], c[j + 1..];
    var rest := pre + post;
    assert c == pre + [c[j]] + post;
    assert UniqueKeys(rest) && !HasKey(rest, k) by {
      UniqueMiddle(pre, c[j], post);
    }
    assert !HasKey(post, k) by {
      HasKeyConcat(pre, post, k);
    }
    var m := ToMap(rest);
    assert ToMap(c) == m[k := c[j].1] by {
      ToMapMiddle(pre, c[j], post);
      ToMapConcat(pre, post);
    }
    assert k !in m by {
      ToMapKeys(rest, k);
    }
    assert m[k := c[j].1] - {k} == m;
  }
}
