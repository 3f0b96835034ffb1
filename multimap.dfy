/**
 * The ordered multimap behind every position table of a residue: a dictionary
 * from keys to lists of values, plus the order in which keys were first added
 * (pygly2/utils/multimap.py).
 */
module MultiMaps {
  import opened Wrappers

  /** The state of an OrderedMultiMap: the value lists and the first-insertion order of keys. */
  datatype MultiMap<K, V> = MultiMap(contents: map<K, seq<V>>, keyOrder: seq<K>)

  /** `pop` with a value that is not stored under the key (list.index raises ValueError). */
  datatype PopError = ValueNotFound

  /** Keys are listed once each, and every stored key is listed with a non-empty list. */
  predicate Valid<K(==), V(==)>(m: MultiMap<K, V>) {
    (forall k | k in m.contents :: k in m.keyOrder && |m.contents[k]| > 0) &&
    (forall i, j | 0 <= i < j < |m.keyOrder| :: m.keyOrder[i] != m.keyOrder[j])
  }

  function Empty<K(==), V(==)>(): (m: MultiMap<K, V>)
    ensures Valid(m)
  {
    MultiMap(map[], [])
  }

  /** `m[key]`: the values stored under `key`, the empty list for a key never stored. */
  function Get<K(==), V(==)>(m: MultiMap<K, V>, k: K): seq<V> {
    if k in m.contents then m.contents[k] else []
  }

  /** `m[key] = value`: appends, and lists a new key after all earlier ones. */
  function Put<K(==), V(==)>(m: MultiMap<K, V>, k: K, v: V): MultiMap<K, V> {
    MultiMap(m.contents[k := Get(m, k) + [v]],
             if k in m.keyOrder then m.keyOrder else m.keyOrder + [k])
  }

  /** `s.pop(s.index(x))`: drops the first element equal to `x`; a list without `x` is left alone. */
  function RemoveFirst<T(==)>(s: seq<T>, x: T): seq<T> {
    if |s| == 0 then []
    else if s[0] == x then s[1..]
    else [s[0]] + RemoveFirst(s[1..], x)
  }

  /** Removing the first `x` is cutting out the position `list.index` finds. */
  lemma {:induction false} RemoveFirstAt<T>(s: seq<T>, x: T, i: nat)
    requires i < |s| && s[i] == x && x !in s[..i]
    ensures RemoveFirst(s, x) == s[..i] + s[i + 1..]
  {
    if i > 0 {
      assert s[0] == s[..i][0];
      assert s[1..][..i - 1] == s[1..i];
      RemoveFirstAt(s[1..], x, i - 1);
    }
  }

  lemma {:induction false} RemoveFirstLength<T>(s: seq<T>, x: T)
    ensures |RemoveFirst(s, x)| == if x in s then |s| - 1 else |s|
  {
    if |s| > 0 {
      assert s == [s[0]] + s[1..];
      RemoveFirstLength(s[1..], x);
    }
  }

  lemma {:induction false} RemoveFirstConcat<T>(a: seq<T>, b: seq<T>, x: T)
    ensures RemoveFirst(a + b, x) == if x in a then RemoveFirst(a, x) + b else a + RemoveFirst(b, x)
  {
    if |a| > 0 {
      var head, tail := a[0], a[1..];
      assert (a + b)[0] == head && (a + b)[1..] == tail + b;
      assert x in a <==> x == head || x in tail;
      RemoveFirstConcat(tail, b, x);
      if x != head {
        Regroup([head], RemoveFirst(tail, x), b);
        Regroup([head], tail, RemoveFirst(b, x));
      }
    } else {
      assert a + b == b;
    }
  }

  lemma {:induction false} RemoveFirstPairs<K, V>(k: K, vs: seq<V>, v: V)
    ensures RemoveFirst(Pairs(k, vs), (k, v)) == Pairs(k, RemoveFirst(vs, v))
    ensures (k, v) in Pairs(k, vs) <==> v in vs
  {
    if |vs| > 0 {
      assert Pairs(k, vs)[1..] == Pairs(k, vs[1..]);
      assert vs == [vs[0]] + vs[1..];
      RemoveFirstPairs(k, vs[1..], v);
      if vs[0] != v {
        assert Pairs(k, RemoveFirst(vs, v)) == [(k, vs[0])] + Pairs(k, RemoveFirst(vs[1..], v));
      }
    }
  }

  /**
   * `pop(key, value)`: removes the first occurrence of `value` under `key`,
   * forgets the key's list once it is empty (but keeps the key in the key
   * order) and returns how many values remain under the key.
   */
  function Pop<K(==), V(==)>(m: MultiMap<K, V>, k: K, v: V): Result<(MultiMap<K, V>, nat), PopError> {
    var objs := Get(m, k);
    if v !in objs then Err(ValueNotFound)
    else
      var rest := RemoveFirst(objs, v);
      Ok((MultiMap(if |rest| == 0 then m.contents - {k} else m.contents[k := rest], m.keyOrder), |rest|))
  }

  /** The first key, in key order, whose list holds `v`: no key before it holds `v`. */
  function FirstKeyHolding<K(==), V(==)>(m: MultiMap<K, V>, keys: seq<K>, v: V): (r: Option<K>)
    ensures r.Some? ==> r.value in keys && v in Get(m, r.value)
    ensures r.Some? ==> exists i | 0 <= i < |keys| :: keys[i] == r.value && forall j | 0 <= j < i :: v !in Get(m, keys[j])
    ensures r.None? <==> forall k | k in keys :: v !in Get(m, k)
  {
    if |keys| == 0 then None
    else if v in Get(m, keys[0]) then Some(keys[0])
    else
      var r := FirstKeyHolding(m, keys[1..], v);
      assert r.Some? ==> exists i | 0 <= i < |keys| :: keys[i] == r.value && forall j | 0 <= j < i :: v !in Get(m, keys[j]) by {
        if r.Some? {
          var i :| 0 <= i < |keys[1..]| && keys[1..][i] == r.value && forall j | 0 <= j < i :: v !in Get(m, keys[1..][j]);
          assert keys[i + 1] == r.value;
          forall j | 0 <= j < i + 1 ensures v !in Get(m, keys[j]) {
            if j > 0 {
              assert keys[j] == keys[1..][j - 1];
            }
          }
        }
      }
      r
  }

  /** `popv(value)`: pops `value` under the first key holding it and returns the count left there. */
  function PopV<K(==), V(==)>(m: MultiMap<K, V>, v: V): (MultiMap<K, V>, Option<nat>) {
    match FirstKeyHolding(m, m.keyOrder, v)
    case None => (m, None)
    case Some(k) =>
      match Pop(m, k, v)
      case Ok((m', n)) => (m', Some(n))
      case Err(_) => (m, None)
  }

  function Pairs<K(==), V(==)>(k: K, vs: seq<V>): (r: seq<(K, V)>)
    ensures |r| == |vs| && forall i | 0 <= i < |r| :: r[i] == (k, vs[i])
  {
    seq(|vs|, i requires 0 <= i < |vs| => (k, vs[i]))
  }

  function ItemsOf<K(==), V(==)>(m: MultiMap<K, V>, keys: seq<K>): seq<(K, V)> {
    if |keys| == 0 then [] else Pairs(keys[0], Get(m, keys[0])) + ItemsOf(m, keys[1..])
  }

  /** `items()`: every (key, value) pair, keys in first-insertion order, values in insertion order. */
  function Items<K(==), V(==)>(m: MultiMap<K, V>): seq<(K, V)> {
    ItemsOf(m, m.keyOrder)
  }

  function ValuesOf<K(==), V(==)>(m: MultiMap<K, V>, keys: seq<K>): seq<V> {
    if |keys| == 0 then [] else Get(m, keys[0]) + ValuesOf(m, keys[1..])
  }

  /** `values()`: for each key in key order, each value stored under it. */
  function Values<K(==), V(==)>(m: MultiMap<K, V>): seq<V> {
    ValuesOf(m, m.keyOrder)
  }

  lemma {:induction false} ValuesOfItems<K, V>(m: MultiMap<K, V>, keys: seq<K>)
    ensures |ValuesOf(m, keys)| == |ItemsOf(m, keys)|
    ensures forall i | 0 <= i < |ValuesOf(m, keys)| :: ValuesOf(m, keys)[i] == ItemsOf(m, keys)[i].1
  {
    if |keys| > 0 {
      ValuesOfItems(m, keys[1..]);
      var vs: seq<V>, ps: seq<(K, V)> := Get(m, keys[0]), Pairs(keys[0], Get(m, keys[0]));
      var rest: seq<V>, prest: seq<(K, V)> := ValuesOf(m, keys[1..]), ItemsOf(m, keys[1..]);
      forall i | 0 <= i < |vs + rest| ensures (vs + rest)[i] == (ps + prest)[i].1 {
        if i < |vs| {
          assert (ps + prest)[i] == ps[i];
        } else {
          assert (ps + prest)[i] == prest[i - |vs|];
        }
      }
    }
  }

  /** The values `values()` yields are the second components of `items()`, in the same order. */
  lemma ValuesAreItemValues<K, V>(m: MultiMap<K, V>)
    ensures |Values(m)| == |Items(m)|
    ensures forall i | 0 <= i < |Values(m)| :: Values(m)[i] == Items(m)[i].1
  {
    ValuesOfItems(m, m.keyOrder);
  }

  function CountOver<K(==), V(==)>(m: MultiMap<K, V>, keys: seq<K>): nat {
    if |keys| == 0 then 0 else |Get(m, keys[0])| + CountOver(m, keys[1..])
  }

  /** `len(m)`: the sum of the list lengths over the key order. */
  function Len<K(==), V(==)>(m: MultiMap<K, V>): nat {
    CountOver(m, m.keyOrder)
  }

  /** The values that `items()` pairs with `k`, in order. */
  function ValuesAt<K(==), V(==)>(items: seq<(K, V)>, k: K): seq<V> {
    if |items| == 0 then []
    else (if items[0].0 == k then [items[0].1] else []) + ValuesAt(items[1..], k)
  }

  lemma {:induction false} ValuesAtAppend<K, V>(a: seq<(K, V)>, b: seq<(K, V)>, k: K)
    ensures ValuesAt(a + b, k) == ValuesAt(a, k) + ValuesAt(b, k)
  {
    if |a| > 0 {
      assert (a + b)[0] == a[0];
      assert (a + b)[1..] == a[1..] + b;
      ValuesAtAppend(a[1..], b, k);
    } else {
      assert a + b == b;
    }
  }

  lemma {:induction false} ValuesAtPairs<K, V>(k: K, vs: seq<V>, k': K)
    ensures ValuesAt(Pairs(k, vs), k') == if k == k' then vs else []
  {
    if |vs| > 0 {
      assert Pairs(k, vs)[1..] == Pairs(k, vs[1..]);
      ValuesAtPairs(k, vs[1..], k');
    }
  }

  /** No key is listed twice. */
  predicate Distinct<K(==)>(keys: seq<K>) {
    forall i, j | 0 <= i < j < |keys| :: keys[i] != keys[j]
  }

  lemma DistinctTail<K>(keys: seq<K>)
    requires Distinct(keys) && 0 < |keys|
    ensures Distinct(keys[1..]) && keys[0] !in keys[1..]
  {
    forall i | 0 <= i < |keys[1..]| ensures keys[1..][i] != keys[0] {
      assert keys[1..][i] == keys[i + 1];
    }
  }

  lemma {:induction false} ItemsOfAt<K, V>(m: MultiMap<K, V>, keys: seq<K>, k: K)
    requires Distinct(keys)
    ensures ValuesAt(ItemsOf(m, keys), k) == if k in keys then Get(m, k) else []
  {
    if |keys| > 0 {
      DistinctTail(keys);
      var head, tail := keys[0], keys[1..];
      assert ItemsOf(m, keys) == Pairs(head, Get(m, head)) + ItemsOf(m, tail);
      ValuesAtAppend(Pairs(head, Get(m, head)), ItemsOf(m, tail), k);
      ValuesAtPairs(head, Get(m, head), k);
      ItemsOfAt(m, tail, k);
      assert k in keys <==> k == head || k in tail;
    }
  }

  /**
   * Reading `items()` back by key gives exactly `m[key]`: the values of one key
   * keep their insertion order, and a key never stored reads as empty.
   */
  lemma ItemsAt<K, V>(m: MultiMap<K, V>, k: K)
    requires Valid(m)
    ensures ValuesAt(Items(m), k) == Get(m, k)
  {
    ItemsOfAt(m, m.keyOrder, k);
  }

  lemma {:induction false} ItemsOfFrame<K, V>(m: MultiMap<K, V>, m': MultiMap<K, V>, keys: seq<K>)
    requires forall k | k in keys :: Get(m, k) == Get(m', k)
    ensures ItemsOf(m, keys) == ItemsOf(m', keys)
  {
    if |keys| > 0 {
      ItemsOfFrame(m, m', keys[1..]);
    }
  }

  lemma {:induction false} ItemsOfSnoc<K, V>(m: MultiMap<K, V>, keys: seq<K>, k: K)
    ensures ItemsOf(m, keys + [k]) == ItemsOf(m, keys) + Pairs(k, Get(m, k))
  {
    if |keys| == 0 {
      assert keys + [k] == [k];
    } else {
      assert (keys + [k])[1..] == keys[1..] + [k];
      ItemsOfSnoc(m, keys[1..], k);
    }
  }

  lemma {:induction false} ItemsOfConcat<K, V>(m: MultiMap<K, V>, a: seq<K>, b: seq<K>)
    ensures ItemsOf(m, a + b) == ItemsOf(m, a) + ItemsOf(m, b)
  {
    if |a| > 0 {
      assert (a + b)[0] == a[0];
      assert (a + b)[1..] == a[1..] + b;
      ItemsOfConcat(m, a[1..], b);
    } else {
      assert a + b == b;
    }
  }

  /** Storing under a new key adds one item, at the very end of `items()`. */
  lemma PutNewKey<K, V>(m: MultiMap<K, V>, k: K, v: V)
    requires Valid(m) && k !in m.keyOrder
    ensures Valid(Put(m, k, v))
    ensures Put(m, k, v).keyOrder == m.keyOrder + [k]
    ensures Items(Put(m, k, v)) == Items(m) + [(k, v)]
  {
    var m' := Put(m, k, v);
    ItemsOfFrame(m, m', m.keyOrder);
    ItemsOfSnoc(m', m.keyOrder, k);
    assert Get(m', k) == [v];
  }

  /** Putting appends at the key put under, and leaves every other key's list alone. */
  lemma GetPut<K, V>(m: MultiMap<K, V>, k: K, v: V, k': K)
    ensures Get(Put(m, k, v), k') == if k' == k then Get(m, k) + [v] else Get(m, k')
  {
  }

  /** The items of a key order split around one of its keys. */
  lemma ItemsSplit<K, V>(m: MultiMap<K, V>, a: seq<K>, k: K, b: seq<K>)
    requires m.keyOrder == a + ([k] + b)
    ensures Items(m) == ItemsOf(m, a) + Pairs(k, Get(m, k)) + ItemsOf(m, b)
  {
    ItemsOfConcat(m, a, [k] + b);
    assert ([k] + b)[0] == k && ([k] + b)[1..] == b;
    assert ItemsOf(m, [k] + b) == Pairs(k, Get(m, k)) + ItemsOf(m, b);
    Regroup(ItemsOf(m, a), Pairs(k, Get(m, k)), ItemsOf(m, b));
  }

  lemma Regroup<T>(x: seq<T>, y: seq<T>, z: seq<T>)
    ensures x + (y + z) == x + y + z
  {
  }

  /** The items of a key order split around `k`, before and after putting under `k`. */
  lemma ItemsAround<K, V>(m: MultiMap<K, V>, a: seq<K>, k: K, b: seq<K>, v: V)
    requires m.keyOrder == a + ([k] + b) && k !in a && k !in b
    ensures Items(m) == ItemsOf(m, a) + Pairs(k, Get(m, k)) + ItemsOf(m, b)
    ensures Items(Put(m, k, v)) == ItemsOf(m, a) + Pairs(k, Get(m, k)) + [(k, v)] + ItemsOf(m, b)
  {
    var m' := Put(m, k, v);
    assert m'.keyOrder == m.keyOrder;
    ItemsSplit(m, a, k, b);
    ItemsSplit(m', a, k, b);
    ItemsOfFrame(m, m', a);
    ItemsOfFrame(m, m', b);
    assert Get(m', k) == Get(m, k) + [v];
    PairsSnoc(k, Get(m, k), v);
    Regroup(ItemsOf(m, a) + Pairs(k, Get(m, k)), [(k, v)], ItemsOf(m, b));
    Regroup(ItemsOf(m, a), Pairs(k, Get(m, k)), [(k, v)]);
  }

  /** One key of a key order contributes its pairs ahead of the keys after it. */
  lemma ItemsOfStep<K, V>(m: MultiMap<K, V>, keys: seq<K>, i: nat)
    requires i < |keys|
    ensures ItemsOf(m, keys[i..]) == Pairs(keys[i], Get(m, keys[i])) + ItemsOf(m, keys[i + 1..])
  {
    assert keys[i..][0] == keys[i] && keys[i..][1..] == keys[i + 1..];
  }

  lemma PairsSnoc<K, V>(k: K, vs: seq<V>, v: V)
    ensures Pairs(k, vs + [v]) == Pairs(k, vs) + [(k, v)]
  {
  }

  /** A listed key splits the key order into the keys before it and the keys after it, neither holding it. */
  lemma KeyOrderAround<K, V>(m: MultiMap<K, V>, j: nat)
    requires Valid(m) && j < |m.keyOrder|
    ensures var k, a, b := m.keyOrder[j], m.keyOrder[..j], m.keyOrder[j + 1..];
      m.keyOrder == a + ([k] + b) && k !in a && k !in b
  {
    var k, a, b := m.keyOrder[j], m.keyOrder[..j], m.keyOrder[j + 1..];
    assert m.keyOrder == a + ([k] + b);
    forall t | 0 <= t < |a| ensures a[t] != k { assert a[t] == m.keyOrder[t]; }
    forall t | 0 <= t < |b| ensures b[t] != k { assert b[t] == m.keyOrder[j + 1 + t]; }
  }

  /**
   * `m[k] = v` inserts exactly one pair into `items()`: right after the pairs
   * already under `k`, or at the very end for a new key; every other pair
   * keeps its place in the order.
   */
  lemma ItemsPutSplit<K, V>(m: MultiMap<K, V>, k: K, v: V)
    requires Valid(m)
    ensures exists i | 0 <= i <= |Items(m)| :: Items(Put(m, k, v)) == Items(m)[..i] + [(k, v)] + Items(m)[i..]
  {
    if k !in m.keyOrder {
      PutNewKey(m, k, v);
      assert Items(m)[..|Items(m)|] == Items(m) && Items(m)[|Items(m)|..] == [];
    } else {
      var j :| 0 <= j < |m.keyOrder| && m.keyOrder[j] == k;
      var a, b := m.keyOrder[..j], m.keyOrder[j + 1..];
      KeyOrderAround(m, j);
      ItemsAround(m, a, k, b, v);
      var left := ItemsOf(m, a) + Pairs(k, Get(m, k));
      var i := |left|;
      assert Items(m)[..i] == left && Items(m)[i..] == ItemsOf(m, b);
    }
  }

  lemma PutAppends<K, V>(m: MultiMap<K, V>, k: K, v: V, k': K)
    requires Valid(m)
    ensures Valid(Put(m, k, v))
    ensures Get(Put(m, k, v), k') == if k' == k then Get(m, k) + [v] else Get(m, k')
    ensures ValuesAt(Items(Put(m, k, v)), k') == ValuesAt(Items(m), k') + (if k' == k then [v] else [])
    ensures k in m.keyOrder ==> Put(m, k, v).keyOrder == m.keyOrder
  {
    var m' := Put(m, k, v);
    assert Valid(m') by {
      if k !in m.keyOrder {
        forall i, j | 0 <= i < j < |m'.keyOrder| ensures m'.keyOrder[i] != m'.keyOrder[j] {
          if j == |m.keyOrder| {
            assert m'.keyOrder[i] == m.keyOrder[i];
          }
        }
      }
    }
    ItemsAt(m, k');
    ItemsAt(m', k');
  }

  lemma {:induction false} ItemsOfRemove<K, V>(m: MultiMap<K, V>, m': MultiMap<K, V>, keys: seq<K>, k: K, v: V)
    requires forall i, j | 0 <= i < j < |keys| :: keys[i] != keys[j]
    requires k in keys
    requires forall k' | k' in keys && k' != k :: Get(m', k') == Get(m, k')
    requires v in Get(m, k) && Get(m', k) == RemoveFirst(Get(m, k), v)
    ensures ItemsOf(m', keys) == RemoveFirst(ItemsOf(m, keys), (k, v))
  {
    var head := Pairs(keys[0], Get(m, keys[0]));
    RemoveFirstConcat(head, ItemsOf(m, keys[1..]), (k, v));
    RemoveFirstPairs(k, Get(m, k), v);
    if keys[0] == k {
      assert k !in keys[1..] by {
        forall i | 0 <= i < |keys[1..]| ensures keys[1..][i] != k {
          assert keys[1..][i] == keys[i + 1];
        }
      }
      ItemsOfFrame(m, m', keys[1..]);
    } else {
      assert (k, v) !in head;
      ItemsOfRemove(m, m', keys[1..], k, v);
    }
  }

  /** A value is read back under a key exactly when the pair is among the items. */
  lemma {:induction false} ValuesAtIff<K, V>(items: seq<(K, V)>, k: K, v: V)
    ensures v in ValuesAt(items, k) <==> (k, v) in items
  {
    if |items| > 0 {
      assert items == [items[0]] + items[1..];
      ValuesAtIff(items[1..], k, v);
    }
  }

  /**
   * `pop(key, value)` fails exactly when `value` is not stored under `key`;
   * otherwise the key order is untouched, `items()` loses exactly the first
   * occurrence of the pair and the count returned is what is left under the key.
   */
  lemma PopRemovesFirst<K, V>(m: MultiMap<K, V>, k: K, v: V)
    requires Valid(m)
    ensures Pop(m, k, v).Err? <==> v !in Get(m, k)
    ensures Pop(m, k, v).Ok? ==>
      var (m', n) := Pop(m, k, v).value;
      Valid(m') && m'.keyOrder == m.keyOrder &&
      Get(m', k) == RemoveFirst(Get(m, k), v) && n + 1 == |Get(m, k)| &&
      (forall k' | k' != k :: Get(m', k') == Get(m, k')) &&
      Items(m') == RemoveFirst(Items(m), (k, v))
  {
    if v in Get(m, k) {
      var (m', n) := Pop(m, k, v).value;
      RemoveFirstLength(Get(m, k), v);
      assert k in m.keyOrder;
      ItemsOfRemove(m, m', m.keyOrder, k, v);
    }
  }

  /** Popping what was just stored gives back the same items and contents (`v` appended after no equal value). */
  lemma PutThenPop<K, V>(m: MultiMap<K, V>, k: K, v: V)
    requires Valid(m) && v !in Get(m, k)
    ensures Pop(Put(m, k, v), k, v).Ok?
    ensures Pop(Put(m, k, v), k, v).value.0.contents == m.contents
    ensures Items(Pop(Put(m, k, v), k, v).value.0) == Items(m)
  {
    var m1 := Put(m, k, v);
    var vs := Get(m, k);
    assert Get(m1, k) == vs + [v];
    RemoveFirstConcat(vs, [v], v);
    assert RemoveFirst(vs + [v], v) == vs;
    var m2 := Pop(m1, k, v).value.0;
    assert m2.contents == m.contents;
    if k in m.keyOrder {
      assert m2 == m;
    } else {
      PutNewKey(m, k, v);
      ItemsOfFrame(m2, m, m.keyOrder);
      ItemsOfSnoc(m2, m.keyOrder, k);
    }
  }

  lemma {:induction false} CountOverItems<K, V>(m: MultiMap<K, V>, keys: seq<K>)
    ensures CountOver(m, keys) == |ItemsOf(m, keys)|
  {
    if |keys| > 0 {
      CountOverItems(m, keys[1..]);
    }
  }

  /** `len(m)` is the number of pairs `items()` yields. */
  lemma LenIsItemCount<K, V>(m: MultiMap<K, V>)
    ensures Len(m) == |Items(m)|
  {
    CountOverItems(m, m.keyOrder);
  }

  /** `popv(value)` reports nothing (and changes nothing) exactly when no key holds `value`. */
  lemma PopVFindsAnyHolder<K, V>(m: MultiMap<K, V>, v: V)
    requires Valid(m)
    ensures PopV(m, v).1.None? <==> v !in Values(m)
    ensures PopV(m, v).1.None? ==> PopV(m, v).0 == m
    ensures PopV(m, v).1.Some? ==> |Values(PopV(m, v).0)| + 1 == |Values(m)|
    ensures PopV(m, v).1.Some? ==>
      var k := FirstKeyHolding(m, m.keyOrder, v).value;
      var m' := PopV(m, v).0;
      FirstKeyHolding(m, m.keyOrder, v).Some? && m'.keyOrder == m.keyOrder &&
      Get(m', k) == RemoveFirst(Get(m, k), v) && PopV(m, v).1.value == |Get(m', k)| &&
      (forall k' | k' != k :: Get(m', k') == Get(m, k'))
  {
    ValuesAreItemValues(m);
    ValuesAreItemValues(PopV(m, v).0);
    match FirstKeyHolding(m, m.keyOrder, v)
    case None =>
      forall i | 0 <= i < |Values(m)| ensures Values(m)[i] != v {
        var (k, w) := Items(m)[i];
        ValuesAtIff(Items(m), k, w);
        ItemsAt(m, k);
        assert k in m.contents;
      }
    case Some(k) =>
      PopRemovesFirst(m, k, v);
      ItemsAt(m, k);
      ValuesAtIff(Items(m), k, v);
      var i :| 0 <= i < |Items(m)| && Items(m)[i] == (k, v);
      assert Values(m)[i] == v;
      RemoveFirstLength(Items(m), (k, v));
  }

  /** Storing keeps the multimap well formed. */
  /** `m[k] = v` adds one to `len(m)`. */
  lemma LenPut<K, V>(m: MultiMap<K, V>, k: K, v: V)
    requires Valid(m)
    ensures Len(Put(m, k, v)) == Len(m) + 1
  {
    LenIsItemCount(m);
    LenIsItemCount(Put(m, k, v));
    ItemsPutSplit(m, k, v);
  }

  lemma PutValid<K, V>(m: MultiMap<K, V>, k: K, v: V)
    requires Valid(m)
    ensures Valid(Put(m, k, v))
  {
    PutAppends(m, k, v, k);
  }

  /** `v` is the last value stored under `k` and occurs nowhere earlier in that list. */
  predicate LastAt<K(==), V(==)>(m: MultiMap<K, V>, k: K, v: V) {
    var vs := Get(m, k);
    |vs| > 0 && vs[|vs| - 1] == v && v !in vs[..|vs| - 1]
  }

  /** Popping the last value under a key and storing it again gives back the very same multimap. */
  lemma PopThenPut<K, V>(m: MultiMap<K, V>, k: K, v: V)
    requires Valid(m) && LastAt(m, k, v)
    ensures Pop(m, k, v).Ok? && Put(Pop(m, k, v).value.0, k, v) == m
  {
    var vs := Get(m, k);
    var pre := vs[..|vs| - 1];
    assert vs == pre + [v];
    RemoveFirstConcat(pre, [v], v);
    assert RemoveFirst(vs, v) == pre;
    var m' := Pop(m, k, v).value.0;
    assert k in m.contents && k in m.keyOrder;
    assert Get(m', k) == pre;
    assert Put(m', k, v).contents == m.contents;
  }

  /**
   * The multimap object: the source mutates `contents` and `key_order` in
   * place; every method below is proved against the value functions above.
   */
  class OrderedMultiMap<K(==), V(==)> {
    var contents: map<K, seq<V>>
    var keyOrder: seq<K>

    function Value(): MultiMap<K, V>
      reads this
    {
      MultiMap(contents, keyOrder)
    }

    constructor ()
      ensures Value() == Empty()
    {
      contents := map[];
      keyOrder := [];
    }

    /** `__setitem__` */
    method SetItem(k: K, v: V)
      modifies this
      ensures Value() == Put(old(Value()), k, v)
    {
      if k !in keyOrder {
        keyOrder := keyOrder + [k];
      }
      var objs := if k in contents then contents[k] else [];
      contents := contents[k := objs + [v]];
    }

    /** `pop(key, value)`, searching the key's list for the first equal value. */
    method PopValue(k: K, v: V) returns (r: Result<nat, PopError>)
      modifies this
      ensures Pop(old(Value()), k, v).Err? ==> r == Err(ValueNotFound) && Value() == old(Value())
      ensures Pop(old(Value()), k, v).Ok? ==>
        r == Ok(Pop(old(Value()), k, v).value.1) && Value() == Pop(old(Value()), k, v).value.0
    {
      var objs := if k in contents then contents[k] else [];
      var i := 0;
      while i < |objs| && objs[i] != v
        invariant 0 <= i <= |objs|
        invariant v !in objs[..i]
      {
        i := i + 1;
      }
      if i == |objs| {
        assert objs[..i] == objs;
        return Err(ValueNotFound);
      }
      RemoveFirstAt(objs, v, i);
      var rest := objs[..i] + objs[i + 1..];
      if |rest| == 0 {
        contents := contents - {k};
      } else {
        contents := contents[k := rest];
      }
      r := Ok(|rest|);
    }

    /** `popv(value)`: scans the key order for the first key holding the value. */
    method PopAny(v: V) returns (r: Option<nat>)
      modifies this
      ensures (Value(), r) == PopV(old(Value()), v)
    {
      var i := 0;
      while i < |keyOrder|
        invariant 0 <= i <= |keyOrder|
        invariant Value() == old(Value())
        invariant forall j | 0 <= j < i :: v !in Get(Value(), keyOrder[j])
        invariant FirstKeyHolding(Value(), keyOrder, v) == FirstKeyHolding(Value(), keyOrder[i..], v)
      {
        var objs := if keyOrder[i] in contents then contents[keyOrder[i]] else [];
        if v in objs {
          var res := PopValue(keyOrder[i], v);
          if res.Ok? {
            r := Some(res.value);
          } else {
            r := None;
          }
          return;
        }
        assert keyOrder[i..][1..] == keyOrder[i + 1..];
        i := i + 1;
      }
      r := None;
    }

    /** `items()`: walks the key order and each key's list. */
    method ItemList() returns (items: seq<(K, V)>)
      ensures items == Items(Value())
    {
      ghost var m := Value();
      var order, table := keyOrder, contents;
      items := [];
      var i := 0;
      while i < |order|
        invariant 0 <= i <= |order|
        invariant items + ItemsOf(m, order[i..]) == Items(m)
      {
        var k := order[i];
        var objs := if k in table then table[k] else [];
        assert objs == Get(m, k);
        var j := 0;
        ghost var before := items;
        while j < |objs|
          invariant 0 <= j <= |objs|
          invariant items == before + Pairs(k, objs[..j])
        {
          assert objs[..j + 1] == objs[..j] + [objs[j]];
          PairsSnoc(k, objs[..j], objs[j]);
          items := items + [(k, objs[j])];
          j := j + 1;
        }
        assert objs[..j] == objs;
        ItemsOfStep(m, order, i);
        Regroup(before, Pairs(k, objs), ItemsOf(m, order[i + 1..]));
        i := i + 1;
      }
      assert order[i..] == [];
    }

    /** `__len__`: sums the list lengths over the key order. */
    method Length() returns (n: nat)
      ensures n == Len(Value()) && n == |Items(Value())|
    {
      n := 0;
      var i := 0;
      while i < |keyOrder|
        invariant 0 <= i <= |keyOrder|
        invariant n + CountOver(Value(), keyOrder[i..]) == Len(Value())
      {
        var objs := if keyOrder[i] in contents then contents[keyOrder[i]] else [];
        n := n + |objs|;
        assert keyOrder[i..][1..] == keyOrder[i + 1..];
        i := i + 1;
      }
      LenIsItemCount(Value());
    }

    /** `__eq__`: compares the two item sequences pairwise, a missing pair counting as a difference. */
    method Equals(other: OrderedMultiMap<K, V>) returns (b: bool)
      ensures b <==> Items(Value()) == Items(other.Value())
    {
      var mine := ItemList();
      var theirs := other.ItemList();
      var i := 0;
      while i < |mine| || i < |theirs|
        invariant 0 <= i
        invariant i <= |mine| && i <= |theirs|
        invariant forall j | 0 <= j < i :: mine[j] == theirs[j]
        decreases |mine| + |theirs| - 2 * i
      {
        if i >= |mine| || i >= |theirs| {
          assert |mine| != |theirs|;
          return false;
        }
        if mine[i] != theirs[i] {
          return false;
        }
        i := i + 1;
      }
      assert mine == theirs;
      b := true;
    }

    /** `has_value(value)`: scans `values()`. */
    method HasValue(v: V) returns (b: bool)
      ensures b <==> v in Values(Value())
    {
      var items := ItemList();
      var i := 0;
      while i < |items|
        invariant 0 <= i <= |items|
        invariant forall j | 0 <= j < i :: items[j].1 != v
      {
        if items[i].1 == v {
          ValuesAreItemValues(Value());
          assert Values(Value())[i] == v;
          return true;
        }
        i := i + 1;
      }
      ValuesAreItemValues(Value());
      b := false;
    }
  }
}
