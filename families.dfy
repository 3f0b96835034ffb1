/**
 * The categorical attribute families of the structure layer (Anomer,
 * Configuration, Stem, SuperClass, Modification, RingType). Each is a closed
 * list of (name, value) members; a superclass member's value is the number of
 * carbons in the backbone, and `x` stands for "unknown" and carries None.
 */
module Constants {
  import opened Wrappers
  import opened Enums

  const AnomerFamily: Family := Family("Anomer", [
    ("alpha", IntKey(0)), ("beta", IntKey(1)), ("uncyclized", IntKey(2)), ("x", NoneKey)])

  const ConfigurationFamily: Family := Family("Configuration", [
    ("d", IntKey(1)), ("l", IntKey(2)), ("x", NoneKey)])

  const StemFamily: Family := Family("Stem", [
    ("gro", IntKey(1)), ("ery", IntKey(2)), ("rib", IntKey(3)), ("ara", IntKey(4)),
    ("all", IntKey(5)), ("alt", IntKey(6)), ("glc", IntKey(7)), ("man", IntKey(8)),
    ("tre", IntKey(9)), ("xyl", IntKey(10)), ("lyx", IntKey(11)), ("gul", IntKey(12)),
    ("ido", IntKey(13)), ("gal", IntKey(14)), ("tal", IntKey(15)), ("thr", IntKey(16)),
    ("x", NoneKey)])

  const SuperClassFamily: Family := Family("SuperClass", [
    ("tri", IntKey(3)), ("tet", IntKey(4)), ("pen", IntKey(5)), ("hex", IntKey(6)),
    ("hep", IntKey(7)), ("oct", IntKey(8)), ("non", IntKey(9)), ("dec", IntKey(10)),
    ("x", NoneKey)])

  const ModificationFamily: Family := Family("Modification", [
    ("d", IntKey(1)), ("keto", IntKey(2)), ("en", IntKey(3)), ("a", IntKey(4)),
    ("aldi", IntKey(5)), ("sp2", IntKey(6)), ("sp", IntKey(7)), ("geminal", IntKey(8))])

  const RingTypeFamily: Family := Family("RingType", [
    ("pyranose", IntKey(6)), ("furanose", IntKey(5)), ("open", IntKey(0)), ("x", NoneKey)])

  const Deoxy: EnumValue := EnumValue("Modification", "d", IntKey(1))
  const Keto: EnumValue := EnumValue("Modification", "keto", IntKey(2))
  const Aldi: EnumValue := EnumValue("Modification", "aldi", IntKey(5))
  const En: EnumValue := EnumValue("Modification", "en", IntKey(3))

  const Pyranose: EnumValue := EnumValue("RingType", "pyranose", IntKey(6))
  const Furanose: EnumValue := EnumValue("RingType", "furanose", IntKey(5))
  const OpenRing: EnumValue := EnumValue("RingType", "open", IntKey(0))
  const UnknownRing: EnumValue := EnumValue("RingType", "x", NoneKey)

  const UnknownAnomer: EnumValue := EnumValue("Anomer", "x", NoneKey)
  const UnknownConfiguration: EnumValue := EnumValue("Configuration", "x", NoneKey)
  const UnknownStem: EnumValue := EnumValue("Stem", "x", NoneKey)
  const UnknownSuperClass: EnumValue := EnumValue("SuperClass", "x", NoneKey)

  /** The named members above are the family members they stand for. */
  lemma NamedMembers()
    ensures Deoxy == Member(ModificationFamily, 0) && Keto == Member(ModificationFamily, 1)
    ensures Aldi == Member(ModificationFamily, 4) && En == Member(ModificationFamily, 2)
    ensures Pyranose == Member(RingTypeFamily, 0) && Furanose == Member(RingTypeFamily, 1)
    ensures OpenRing == Member(RingTypeFamily, 2) && UnknownRing == Member(RingTypeFamily, 3)
    ensures UnknownAnomer == Member(AnomerFamily, 3) && UnknownConfiguration == Member(ConfigurationFamily, 2)
    ensures UnknownStem == Member(StemFamily, 16) && UnknownSuperClass == Member(SuperClassFamily, 8)
  {
  }

  /** A family whose values are never strings and never repeated, and whose
   *  names are lower case and never repeated, is well formed. */
  lemma RankedFamily(f: Family, rank: string -> int, vrank: Key -> int)
    requires forall i | 0 <= i < |f.members| ::
      rank(f.members[i].0) == i && vrank(f.members[i].1) == i &&
      !f.members[i].1.StrKey? && Lower(f.members[i].0) == f.members[i].0
    ensures WellFormed(f)
  {
    forall i, j | 0 <= i < j < |f.members|
      ensures f.members[i].0 != f.members[j].0 && f.members[i].1 != f.members[j].1
    {
      assert rank(f.members[i].0) == i && rank(f.members[j].0) == j;
      assert vrank(f.members[i].1) == i && vrank(f.members[j].1) == j;
    }
  }

  function ValueRank(k: Key, unknown: int, offset: int): int {
    if k.IntKey? then k.i - offset else unknown
  }

  function StemRank(s: string): int {
    match s
    case "gro" => 0 case "ery" => 1 case "rib" => 2 case "ara" => 3
    case "all" => 4 case "alt" => 5 case "glc" => 6 case "man" => 7
    case "tre" => 8 case "xyl" => 9 case "lyx" => 10 case "gul" => 11
    case "ido" => 12 case "gal" => 13 case "tal" => 14 case "thr" => 15
    case "x" => 16 case _ => -1
  }

  lemma StemMember(i: nat)
    requires i < |StemFamily.members|
    ensures StemRank(StemFamily.members[i].0) == i && ValueRank(StemFamily.members[i].1, 16, 1) == i
    ensures !StemFamily.members[i].1.StrKey?
  {
    match i
    case 0 => case 1 => case 2 => case 3 => case 4 => case 5 => case 6 => case 7 => case 8 =>
    case 9 => case 10 => case 11 => case 12 => case 13 => case 14 => case 15 => case 16 =>
  }

  lemma StemLowerCase(i: nat)
    requires i < |StemFamily.members|
    ensures Lower(StemFamily.members[i].0) == StemFamily.members[i].0
  {
    var n := StemFamily.members[i].0;
    assert |n| <= 3 && forall k | 0 <= k < |n| :: 'a' <= n[k] <= 'z' by {
      match i
      case 0 => case 1 => case 2 => case 3 => case 4 => case 5 => case 6 => case 7 => case 8 =>
      case 9 => case 10 => case 11 => case 12 => case 13 => case 14 => case 15 => case 16 =>
    }
  }

  lemma StemWellFormed()
    ensures WellFormed(StemFamily)
  {
    var m := StemFamily.members;
    forall i | 0 <= i < |m|
      ensures StemRank(m[i].0) == i && ValueRank(m[i].1, 16, 1) == i
      ensures !m[i].1.StrKey? && Lower(m[i].0) == m[i].0
    {
      StemMember(i);
      StemLowerCase(i);
    }
    RankedFamily(StemFamily, StemRank, k => ValueRank(k, 16, 1));
  }

  function SuperClassRank(s: string): int {
    match s
    case "tri" => 0 case "tet" => 1 case "pen" => 2 case "hex" => 3 case "hep" => 4
    case "oct" => 5 case "non" => 6 case "dec" => 7 case "x" => 8 case _ => -1
  }

  lemma SuperClassWellFormed()
    ensures WellFormed(SuperClassFamily)
  {
    var m := SuperClassFamily.members;
    forall i | 0 <= i < |m|
      ensures SuperClassRank(m[i].0) == i && ValueRank(m[i].1, 8, 3) == i
      ensures !m[i].1.StrKey? && Lower(m[i].0) == m[i].0
    {
      match i
      case 0 => case 1 => case 2 => case 3 => case 4 => case 5 => case 6 => case 7 => case 8 =>
    }
    RankedFamily(SuperClassFamily, SuperClassRank, k => ValueRank(k, 8, 3));
  }

  function ModificationRank(s: string): int {
    match s
    case "d" => 0 case "keto" => 1 case "en" => 2 case "a" => 3
    case "aldi" => 4 case "sp2" => 5 case "sp" => 6 case "geminal" => 7 case _ => -1
  }

  lemma ModificationWellFormed()
    ensures WellFormed(ModificationFamily)
  {
    var m := ModificationFamily.members;
    forall i | 0 <= i < |m|
      ensures ModificationRank(m[i].0) == i && ValueRank(m[i].1, -1, 1) == i
      ensures !m[i].1.StrKey? && Lower(m[i].0) == m[i].0
    {
      match i
      case 0 => case 1 => case 2 => case 3 => case 4 => case 5 => case 6 => case 7 =>
    }
    RankedFamily(ModificationFamily, ModificationRank, k => ValueRank(k, -1, 1));
  }

  function AnomerRank(s: string): int {
    match s
    case "alpha" => 0 case "beta" => 1 case "uncyclized" => 2 case "x" => 3 case _ => -1
  }

  lemma AnomerWellFormed()
    ensures WellFormed(AnomerFamily)
  {
    var m := AnomerFamily.members;
    forall i | 0 <= i < |m|
      ensures AnomerRank(m[i].0) == i && ValueRank(m[i].1, 3, 0) == i
      ensures !m[i].1.StrKey? && Lower(m[i].0) == m[i].0
    {
      match i
      case 0 => case 1 => case 2 => case 3 =>
    }
    RankedFamily(AnomerFamily, AnomerRank, k => ValueRank(k, 3, 0));
  }

  function ConfigurationRank(s: string): int {
    match s
    case "d" => 0 case "l" => 1 case "x" => 2 case _ => -1
  }

  lemma ConfigurationWellFormed()
    ensures WellFormed(ConfigurationFamily)
  {
    var m := ConfigurationFamily.members;
    forall i | 0 <= i < |m|
      ensures ConfigurationRank(m[i].0) == i && ValueRank(m[i].1, 2, 1) == i
      ensures !m[i].1.StrKey? && Lower(m[i].0) == m[i].0
    {
      match i
      case 0 => case 1 => case 2 =>
    }
    RankedFamily(ConfigurationFamily, ConfigurationRank, k => ValueRank(k, 2, 1));
  }

  function RingTypeRank(s: string): int {
    match s
    case "pyranose" => 0 case "furanose" => 1 case "open" => 2 case "x" => 3 case _ => -1
  }

  /** Ring-type values are ring sizes (6, 5) and 0 for the open chain. */
  function RingValueRank(k: Key): int {
    if k == IntKey(6) then 0 else if k == IntKey(5) then 1 else if k == IntKey(0) then 2 else 3
  }

  lemma RingTypeWellFormed()
    ensures WellFormed(RingTypeFamily)
  {
    var m := RingTypeFamily.members;
    forall i | 0 <= i < |m|
      ensures RingTypeRank(m[i].0) == i && RingValueRank(m[i].1) == i
      ensures !m[i].1.StrKey? && Lower(m[i].0) == m[i].0
    {
      match i
      case 0 => case 1 => case 2 => case 3 =>
    }
    RankedFamily(RingTypeFamily, RingTypeRank, RingValueRank);
  }

  /** Every modification name resolves to its member, whatever the case it is written in. */
  lemma TranslateModification(s: string, i: nat)
    requires i < |ModificationFamily.members| && Lower(s) == ModificationFamily.members[i].0
    ensures Translate(ModificationFamily, StrKey(s)) == Ok(Member(ModificationFamily, i))
  {
    ModificationWellFormed();
    TranslateByName(ModificationFamily, i, s);
  }

  /** Superclass members compare equal exactly when they are the same member. */
  lemma SuperClassEq(i: nat, j: nat)
    requires i < |SuperClassFamily.members| && j < |SuperClassFamily.members|
    ensures Eq(Member(SuperClassFamily, i), Member(SuperClassFamily, j)) <==> i == j
  {
    SuperClassWellFormed();
    EqWithinFamily(SuperClassFamily, i, j);
  }
}
