/** The small utilities of pygly2/utils/base.py that the structure code relies on. */
module Base {
  import opened Wrappers

  /**
   * `make_counter(start)`: a counter whose only state is one mutable cell.
   * Every call returns the current number and moves the cell on by one.
   */
  class Counter {
    var next: int
    ghost const start: int
    ghost var calls: nat

    ghost predicate Valid()
      reads this
    {
      next == start + calls
    }

    constructor (start: int)
      ensures Valid() && this.start == start && calls == 0
    {
      this.start := start;
      next := start;
      calls := 0;
    }

    /** `count_up()`: the k-th call returns `start + k - 1`; only this counter's cell changes. */
    method Call() returns (r: int)
      requires Valid()
      modifies this
      ensures Valid() && calls == old(calls) + 1
      ensures r == start + calls - 1 && r == old(next)
    {
      r := next;
      next := next + 1;
      calls := calls + 1;
    }
  }

  datatype ChrError = ChrOutOfRange

  /** `chrinc(a, i)`: the character `i` code points after `a`; `chr` refuses codes outside 0..255. */
  function ChrInc(a: char, i: int): (r: Result<char, ChrError>)
    ensures r.Ok? <==> 0 <= a as int + i < 256
    ensures r.Ok? ==> r.value as int - a as int == i
  {
    if 0 <= a as int + i < 256 then Ok((a as int + i) as char) else Err(ChrOutOfRange)
  }

  /** Stepping forward and back again returns the original (byte-string) character. */
  lemma ChrIncInverse(a: char, i: int)
    requires a as int < 256 && ChrInc(a, i).Ok?
    ensures ChrInc(ChrInc(a, i).value, -i) == Ok(a)
  {
    var b := ChrInc(a, i).value;
    assert b as int + -i == a as int;
  }

  /**
   * `invert_dict(d)`: maps every value back to a key that carried it. When
   * several keys share a value, which one survives depends on dictionary
   * iteration order, so the model only says that some such key does.
   */
  ghost function InvertDict<K, V>(d: map<K, V>): (r: map<V, K>)
    ensures r.Keys == d.Values
    ensures forall v | v in r :: r[v] in d && d[r[v]] == v
  {
    map v | v in d.Values :: var k :| k in d && d[k] == v; k
  }

  ghost predicate Injective<K, V>(d: map<K, V>) {
    forall k, k' | k in d && k' in d && k != k' :: d[k] != d[k']
  }

  /** Inverting a one-to-one dictionary twice gives the dictionary back. */
  lemma InvertTwice<K, V>(d: map<K, V>)
    requires Injective(d)
    ensures Injective(InvertDict(d))
    ensures InvertDict(InvertDict(d)) == d
  {
    var r := InvertDict(d);
    var rr := InvertDict(r);
    forall k | k in d ensures k in r.Values && r[d[k]] == k {
      assert d[k] in r;
    }
    assert rr.Keys == d.Keys;
    forall k | k in d ensures rr[k] == d[k] {
      assert r[rr[k]] == k;
      assert r[d[k]] == k;
    }
  }
}
