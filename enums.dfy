/**
 * Enumerations with rich comparison (pygly2/utils/enum.py): a member carries
 * its family ("group"), its name and a plain value, compares equal to members
 * of its family by value or by name, and a family can be asked for a member
 * by name or by value.
 */
module Enums {
  import opened Wrappers

  /** The plain Python values a member can carry or be compared with: an int, a string or None. */
  datatype Key = IntKey(i: int) | StrKey(s: string) | NoneKey

  datatype EnumValue = EnumValue(group: string, name: string, value: Key)

  /** `EnumValue.__eq__` between two members. */
  predicate Eq(a: EnumValue, b: EnumValue) {
    a.group == b.group && (a.value == b.value || StrKey(a.name) == b.value)
  }

  /** `EnumValue.__eq__` between a member and a plain value. */
  predicate EqKey(a: EnumValue, k: Key) {
    a.value == k || StrKey(a.name) == k
  }

  /** `EnumValue.__hash__`: the hash is computed from the name alone. */
  function Hash(a: EnumValue): string {
    a.name
  }

  /**
   * A member used as a key of a dictionary keyed by strings: Python hashes it
   * by name and then compares the stored string with it, so the lookup finds
   * the entry named like the member, whatever its family.
   */
  function LookupByName<T>(table: map<string, T>, a: EnumValue): (r: Option<T>)
    ensures r.Some? <==> Hash(a) in table
    ensures r.Some? ==> EqKey(a, StrKey(Hash(a))) && r.value == table[Hash(a)]
  {
    if a.name in table then Some(table[a.name]) else None
  }

  /** A family such as `Anomer` or `Stem`: its name and its members in declaration order. */
  datatype Family = Family(name: string, members: seq<(string, Key)>)

  function Member(f: Family, i: nat): EnumValue
    requires i < |f.members|
  {
    EnumValue(f.name, f.members[i].0, f.members[i].1)
  }

  function LowerChar(c: char): char {
    if 'A' <= c <= 'Z' then (c as int + 32) as char else c
  }

  /**
   * `str.lower` on the ASCII letters: no capital is left, every other
   * character is kept, and a capital becomes the small letter 32 code points on.
   */
  function Lower(s: string): (r: string)
    ensures |r| == |s|
    ensures forall i | 0 <= i < |r| :: !('A' <= r[i] <= 'Z')
    ensures forall i | 0 <= i < |s| && !('A' <= s[i] <= 'Z') :: r[i] == s[i]
    ensures forall i | 0 <= i < |s| && 'A' <= s[i] <= 'Z' :: r[i] as int == s[i] as int + 32
  {
    seq(|s|, i requires 0 <= i < |s| => LowerChar(s[i]))
  }

  function LowerKey(k: Key): Key {
    if k.StrKey? then StrKey(Lower(k.s)) else k
  }

  /** Member names are distinct and lower case, and no member compares equal to another one. */
  predicate WellFormed(f: Family) {
    (forall i | 0 <= i < |f.members| :: Lower(f.members[i].0) == f.members[i].0) &&
    (forall i, j | 0 <= i < j < |f.members| ::
       f.members[i].0 != f.members[j].0 &&
       f.members[i].1 != f.members[j].1 &&
       f.members[i].1 != StrKey(f.members[j].0) &&
       f.members[j].1 != StrKey(f.members[i].0))
  }

  /** The first member whose name is the key (the class-dictionary lookup). */
  function FindName(f: Family, k: Key, from: nat): (r: Option<nat>)
    requires from <= |f.members|
    ensures r.Some? ==> from <= r.value < |f.members| && StrKey(f.members[r.value].0) == k
    ensures r.None? ==> forall i | from <= i < |f.members| :: StrKey(f.members[i].0) != k
    decreases |f.members| - from
  {
    if from == |f.members| then None
    else if StrKey(f.members[from].0) == k then Some(from)
    else FindName(f, k, from + 1)
  }

  /** The first member that compares equal to the key (`k in values()` followed by `name(k)`). */
  function FindEqual(f: Family, k: Key, from: nat): (r: Option<nat>)
    requires from <= |f.members|
    ensures r.Some? ==> from <= r.value < |f.members| && EqKey(Member(f, r.value), k) &&
                        forall i | from <= i < r.value :: !EqKey(Member(f, i), k)
    ensures r.None? ==> forall i | from <= i < |f.members| :: !EqKey(Member(f, i), k)
    decreases |f.members| - from
  {
    if from == |f.members| then None
    else if EqKey(Member(f, from), k) then Some(from)
    else FindEqual(f, k, from + 1)
  }

  datatype LookupError = KeyError(key: Key)

  /**
   * `EnumMeta.translate` for a plain value: strings are lowered, then looked up
   * by member name, then by value; anything else raises `KeyError`.
   */
  function Translate(f: Family, k: Key): Result<EnumValue, LookupError> {
    var k' := LowerKey(k);
    match FindName(f, k', 0)
    case Some(i) => Ok(Member(f, i))
    case None =>
      match FindEqual(f, k', 0)
      case None => Err(KeyError(k'))
      case Some(i) =>
        // `self[self.name(k)]`: the member's name, looked up once more
        match FindName(f, LowerKey(StrKey(f.members[i].0)), 0)
        case Some(j) => Ok(Member(f, j))
        case None => Err(KeyError(LowerKey(StrKey(f.members[i].0))))
  }

  /**
   * `EnumMeta.translate` for a member: `lower()` does not apply, the
   * dictionary lookup goes by the member's name (its hash), and the fallback
   * compares the member itself with the family's members.
   */
  function TranslateMember(f: Family, a: EnumValue): Result<EnumValue, LookupError> {
    match FindName(f, StrKey(Hash(a)), 0)
    case Some(i) => Ok(Member(f, i))
    case None =>
      match FindEqualMember(f, a, 0)
      case None => Err(KeyError(StrKey(a.name)))
      // `self[self.name(k)]`: the name of the first member `k` equals, looked up again
      case Some(i) => Translate(f, StrKey(f.members[i].0))
  }

  /** `name(v)` for a member `v`: the first member that `v` compares equal to. */
  function FindEqualMember(f: Family, a: EnumValue, from: nat): (r: Option<nat>)
    requires from <= |f.members|
    ensures r.Some? ==> from <= r.value < |f.members| && Eq(a, Member(f, r.value)) &&
                        forall i | from <= i < r.value :: !Eq(a, Member(f, i))
    ensures r.None? ==> forall i | from <= i < |f.members| :: !Eq(a, Member(f, i))
    decreases |f.members| - from
  {
    if from == |f.members| then None
    else if Eq(a, Member(f, from)) then Some(from)
    else FindEqualMember(f, a, from + 1)
  }

  /**
   * Translating a member of a well-formed family gives that very member: its
   * hash finds the dictionary entry under its own name.
   */
  lemma TranslateMemberOwn(f: Family, i: nat)
    requires WellFormed(f) && i < |f.members|
    ensures TranslateMember(f, Member(f, i)) == Ok(Member(f, i))
  {
    var r := FindName(f, StrKey(f.members[i].0), 0);
    assert r.Some?;
  }

  /**
   * A member named like no member of the family is translated exactly when it
   * compares equal to one of them, and then to the first such member.
   */
  lemma TranslateMemberByEquality(f: Family, a: EnumValue)
    requires WellFormed(f)
    requires forall i | 0 <= i < |f.members| :: f.members[i].0 != a.name
    ensures TranslateMember(f, a).Err? <==> forall i | 0 <= i < |f.members| :: !Eq(a, Member(f, i))
    ensures TranslateMember(f, a).Ok? ==>
      exists i | 0 <= i < |f.members| :: TranslateMember(f, a).value == Member(f, i) && Eq(a, Member(f, i)) &&
        forall j | 0 <= j < i :: !Eq(a, Member(f, j))
  {
    match FindEqualMember(f, a, 0)
    case None =>
    case Some(i) =>
      TranslateByName(f, i, f.members[i].0);
  }

  lemma LowerIdempotent(s: string)
    ensures Lower(Lower(s)) == Lower(s)
  {
  }

  /** Looking up any spelling of a member's name, in any case, gives that member. */
  lemma TranslateByName(f: Family, i: nat, s: string)
    requires WellFormed(f) && i < |f.members|
    requires Lower(s) == f.members[i].0
    ensures Translate(f, StrKey(s)) == Ok(Member(f, i))
  {
    var r := FindName(f, StrKey(Lower(s)), 0);
    assert r.Some?;
  }

  /** A plain value that names no member gives the member carrying that value. */
  lemma TranslateByValue(f: Family, i: nat)
    requires WellFormed(f) && i < |f.members|
    requires !f.members[i].1.StrKey?
    ensures Translate(f, f.members[i].1) == Ok(Member(f, i))
  {
    var k := f.members[i].1;
    assert FindName(f, k, 0).None?;
    var r := FindEqual(f, k, 0);
    assert r.Some? by { assert EqKey(Member(f, i), k); }
    var n := f.members[i].0;
    assert LowerKey(StrKey(n)) == StrKey(n);
    var q := FindName(f, StrKey(n), 0);
    assert q.Some? by { assert StrKey(f.members[i].0) == StrKey(n); }
  }

  /** Translation fails exactly when no member is named like, or compares equal to, the lowered key. */
  lemma TranslateFails(f: Family, k: Key)
    requires WellFormed(f)
    ensures Translate(f, k).Err? <==>
      forall i | 0 <= i < |f.members| :: StrKey(f.members[i].0) != LowerKey(k) && !EqKey(Member(f, i), LowerKey(k))
  {
    var k' := LowerKey(k);
    if FindName(f, k', 0).None? {
      match FindEqual(f, k', 0)
      case None =>
      case Some(i) =>
        var n := f.members[i].0;
        assert Lower(n) == n;
        var q := FindName(f, StrKey(n), 0);
        assert q.Some? by { assert StrKey(f.members[i].0) == StrKey(n); }
    }
  }

  /** Within a well-formed family, members compare equal exactly when they are the same member. */
  lemma EqWithinFamily(f: Family, i: nat, j: nat)
    requires WellFormed(f) && i < |f.members| && j < |f.members|
    ensures Eq(Member(f, i), Member(f, j)) <==> i == j
  {
    if i < j {
      assert f.members[i].1 != f.members[j].1 && StrKey(f.members[i].0) != f.members[j].1;
    } else if j < i {
      assert f.members[j].1 != f.members[i].1 && StrKey(f.members[i].0) != f.members[j].1;
    }
  }

  /** Members of different families never compare equal, even with equal names and values. */
  lemma EqNeedsSameGroup(a: EnumValue, b: EnumValue)
    requires a.group != b.group
    ensures !Eq(a, b)
  {
  }

  /** Equality is not symmetric: a member whose value is another member's name. */
  lemma EqNotSymmetric()
    ensures Eq(EnumValue("G", "b", IntKey(1)), EnumValue("G", "a", StrKey("b")))
    ensures !Eq(EnumValue("G", "a", StrKey("b")), EnumValue("G", "b", IntKey(1)))
  {
  }

  /**
   * `EnumValue.__ne__` with a plain value as written: `name != other or value != other`.
   */
  predicate NotEqualKeyAsWritten(a: EnumValue, k: Key) {
    StrKey(a.name) != k || a.value != k
  }

  /**
   * `EnumValue.__ne__` between members as written. Each operand of the `or`
   * compares a plain string or value with the other member, which Python
   * answers through the other member's `__ne__` with that plain value.
   */
  predicate NotEqualAsWritten(a: EnumValue, b: EnumValue) {
    a.group != b.group || NotEqualKeyAsWritten(b, StrKey(a.name)) || NotEqualKeyAsWritten(b, a.value)
  }

  /** As written, `!=` holds between a member and itself unless its value is its own name. */
  lemma NotEqualAsWrittenIsReflexive(a: EnumValue)
    requires a.value != StrKey(a.name)
    ensures NotEqualAsWritten(a, a) && Eq(a, a)
  {
  }

  /** The intended `__ne__`: the negation of `__eq__`. */
  predicate NotEqual(a: EnumValue, b: EnumValue) {
    !Eq(a, b)
  }

  /** The corrected `!=` never holds between a member of a well-formed family and itself. */
  lemma NotEqualIrreflexive(f: Family, i: nat)
    requires WellFormed(f) && i < |f.members|
    ensures !NotEqual(Member(f, i), Member(f, i))
    ensures forall j | 0 <= j < |f.members| && j != i :: NotEqual(Member(f, i), Member(f, j))
  {
    forall j | 0 <= j < |f.members| && j != i ensures NotEqual(Member(f, i), Member(f, j)) {
      EqWithinFamily(f, i, j);
    }
  }
}
