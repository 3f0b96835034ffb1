/**
 * Elemental compositions and the composition tables of
 * pygly2/composition/structure_composition.py.
 */
module Compositions {
  import opened Wrappers

  datatype Element = C | H | N | O | S | P | F | Cl | Br | I

  /**
   * A composition: one count per element (negative counts are deltas). The
   * ten elements are every element the composition tables use.
   */
  datatype Composition = Composition(c: int := 0, h: int := 0, n: int := 0, o: int := 0, s: int := 0,
                                     p: int := 0, f: int := 0, cl: int := 0, br: int := 0, i: int := 0)

  /** A backbone position as the structure code writes it: a number, or `'x'` for unknown. */
  datatype Position = At(n: int) | X

  function Count(a: Composition, e: Element): int {
    match e
    case C => a.c case H => a.h case N => a.n case O => a.o case S => a.s
    case P => a.p case F => a.f case Cl => a.cl case Br => a.br case I => a.i
  }

  /** Two compositions with the same count of every element are the same composition. */
  lemma Extensional(a: Composition, b: Composition)
    requires forall e :: Count(a, e) == Count(b, e)
    ensures a == b
  {
    assert Count(a, C) == Count(b, C) && Count(a, H) == Count(b, H) && Count(a, N) == Count(b, N);
    assert Count(a, O) == Count(b, O) && Count(a, S) == Count(b, S) && Count(a, P) == Count(b, P);
    assert Count(a, F) == Count(b, F) && Count(a, Cl) == Count(b, Cl) && Count(a, Br) == Count(b, Br);
    assert Count(a, I) == Count(b, I);
  }

  const EmptyComposition: Composition := Composition()

  /** `Composition.__add__` */
  function Add(a: Composition, b: Composition): Composition {
    Composition(a.c + b.c, a.h + b.h, a.n + b.n, a.o + b.o, a.s + b.s, a.p + b.p, a.f + b.f, a.cl + b.cl, a.br + b.br, a.i + b.i)
  }

  /** `Composition.__mul__` by a whole number */
  function Scale(a: Composition, k: int): Composition {
    Composition(k * a.c, k * a.h, k * a.n, k * a.o, k * a.s, k * a.p, k * a.f, k * a.cl, k * a.br, k * a.i)
  }

  /** `Composition.__sub__` */
  function Sub(a: Composition, b: Composition): Composition {
    Composition(a.c - b.c, a.h - b.h, a.n - b.n, a.o - b.o, a.s - b.s, a.p - b.p, a.f - b.f, a.cl - b.cl, a.br - b.br, a.i - b.i)
  }

  /** Subtracting what was added gives back the original: a refund is exact. */
  lemma AddSubCancel(a: Composition, b: Composition)
    ensures Sub(Add(a, b), b) == a
    ensures Add(Sub(a, b), b) == a
  {
  }

  lemma AddCommutes(a: Composition, b: Composition)
    ensures Add(a, b) == Add(b, a)
  {
  }

  lemma AddAssociates(a: Composition, b: Composition, c: Composition)
    ensures Add(Add(a, b), c) == Add(a, Add(b, c))
  {
  }

  lemma AddEmpty(a: Composition)
    ensures Add(a, EmptyComposition) == a && Sub(a, EmptyComposition) == a
  {
  }

  const Water: Composition := Composition(h := 2, o := 1)
  const Hydrogen: Composition := Composition(h := 1)
  const Hydroxyl: Composition := Composition(o := 1, h := 1)
  /** `Composition("H2CO")`, one backbone unit of a sugar. */
  const CH2O: Composition := Composition(h := 2, c := 1, o := 1)

  /**
   * The monosaccharide base compositions, keyed by superclass name
   * (`_monosaccharide_compositions`).
   */
  function MonosaccharideCompositions(name: string): Option<Composition> {
    match name
    case "sug" => Some(Composition(c := 2, h := 4, o := 2))
    case "tri" => Some(Composition(c := 3, h := 6, o := 3))
    case "tet" => Some(Composition(c := 4, h := 8, o := 4))
    case "pen" => Some(Composition(c := 5, h := 10, o := 5))
    case "hex" => Some(Composition(c := 6, h := 12, o := 6))
    case "hep" => Some(Composition(c := 7, h := 14, o := 7))
    case "oct" => Some(Composition(c := 8, h := 16, o := 8))
    case "non" => Some(Composition(c := 9, h := 18, o := 9))
    case "dec" => Some(Composition(c := 10, h := 20, o := 10))
    case "s11" => Some(Scale(CH2O, 11))
    case "s12" => Some(Scale(CH2O, 12))
    case "s13" => Some(Scale(CH2O, 13))
    case "s14" => Some(Scale(CH2O, 14))
    case "s15" => Some(Scale(CH2O, 15))
    case "s16" => Some(Scale(CH2O, 16))
    case "s17" => Some(Scale(CH2O, 17))
    case "s18" => Some(Scale(CH2O, 18))
    case "s19" => Some(Scale(CH2O, 19))
    case "s20" => Some(Scale(CH2O, 20))
    case _ => None
  }

  /**
   * The substituent compositions, keyed by substituent name
   * (`_substituent_compositions`); formulas given as strings in the source
   * are written out element by element.
   */
  function SubstituentCompositions(name: string): Option<Composition> {
    match name
    case "n_acetyl" => Some(Composition(c := 2, h := 5, n := 1, o := 1))
    case "sulfate" => Some(Composition(s := 1, o := 3, h := 2))
    case "amino" => Some(Composition(n := 1, h := 3))
    case "n_glycolyl" => Some(Composition(c := 2, h := 5, o := 2, n := 1))
    case "phosphate" => Some(Composition(p := 1, o := 3, h := 3))
    case "acetyl" => Some(Composition(h := 4, c := 2, o := 1))
    case "methyl" => Some(Composition(h := 4, c := 1))
    case "n_sulfate" => Some(Composition(h := 3, s := 1, o := 3, n := 1))
    case "nitrate" => Some(Composition(n := 1, o := 3))
    case "iodo" => Some(Composition(i := 1, h := 1))
    case "flouro" => Some(Composition(f := 1, h := 1))
    case "imino" => Some(Composition(n := 1, h := 2))
    case "chloro" => Some(Composition(cl := 1, h := 1))
    case "formyl" => Some(Composition(c := 1, h := 2, o := 1))
    case "bromo" => Some(Composition(br := 1, h := 1))
    case "pyruvate" => Some(Composition(c := 3, o := 2, h := 4))
    case "n_alanine" => Some(Composition(c := 3, h := 8, n := 2, o := 1))
    case "n_dimethyl" => Some(Composition(n := 1, c := 2, h := 7))
    case "n_formyl" => Some(Composition(n := 1, h := 3, c := 1, o := 1))
    case "n_methyl" => Some(Composition(n := 1, h := 5, c := 1))
    case "n_succinate" => Some(Composition(n := 1, c := 4, o := 3, h := 6))
    case "n_trifluoroacetyl" => Some(Composition(n := 1, h := 2, c := 2, o := 1, f := 3))
    case "thio" => Some(Composition(s := 1, h := 2))
    case _ => None
  }

  /**
   * `CompositionIndex.__getitem__`: the stored composition, or the empty
   * composition for a name that has none (the source warns and goes on).
   */
  function IndexLookup(entry: Option<Composition>): (r: Composition)
    ensures entry.Some? ==> r == entry.value
    ensures entry.None? ==> r == EmptyComposition
  {
    if entry.Some? then entry.value else EmptyComposition
  }

  /** `monosaccharide_composition[name]` */
  function MonosaccharideComposition(name: string): Composition {
    IndexLookup(MonosaccharideCompositions(name))
  }

  /** `substituent_compositions[name]` */
  function SubstituentComposition(name: string): Composition {
    IndexLookup(SubstituentCompositions(name))
  }

  /**
   * The named superclasses (two to ten carbons), written in the table as
   * literal element counts, are a whole number of CH2O units, one per carbon;
   * the numbered ones are defined as such multiples.
   */
  lemma NamedSuperclassesAreCH2O(k: string)
    requires k in {"sug", "tri", "tet", "pen", "hex", "hep", "oct", "non", "dec"}
    ensures var c := MonosaccharideComposition(k); c == Scale(CH2O, Count(c, C))
  {
    match k
    case "sug" =>
    case "tri" =>
    case "tet" =>
    case "pen" =>
    case "hex" =>
    case "hep" =>
    case "oct" =>
    case "non" =>
    case "dec" =>
  }

  /**
   * `CompositionRule`: a base delta plus per-position extra deltas; calling
   * it at a position adds the shift stored for that position, if any.
   */
  datatype Rule = Rule(base: Composition, shifts: map<Position, Composition>)

  /** `CompositionRule.__call__(position)` */
  function Apply(rule: Rule, position: Position): Composition {
    if position in rule.shifts then Add(rule.base, rule.shifts[position]) else Add(rule.base, EmptyComposition)
  }

  /** A listed position gets the base plus its shift, element by element; any other gets the base alone. */
  lemma ApplyShift(rule: Rule, position: Position)
    ensures position !in rule.shifts ==> Apply(rule, position) == rule.base
    ensures position in rule.shifts ==>
      forall e :: Count(Apply(rule, position), e) == Count(rule.base, e) + Count(rule.shifts[position], e)
  {
  }

  /** `_modification_compositions`, keyed by modification name. */
  function ModificationRules(name: string): Option<Rule> {
    match name
    case "d" => Some(Rule(Composition(o := -1), map[]))
    case "a" => Some(Rule(Composition(h := -2, o := 1), map[At(1) := Composition(h := 2)]))
    case "keto" => Some(Rule(Composition(h := -2), map[]))
    case _ => None
  }

  /** The rule with no delta at any position: what the lookup evidently meant to supply for an unknown name. */
  const EmptyRule: Rule := Rule(EmptyComposition, map[])

  /**
   * `CompositionRuleIndex.__getitem__` as written: an unknown name calls
   * `CompositionRule()` without its required argument, which raises
   * `TypeError` (modelled as `None`) instead of supplying a rule.
   */
  function RuleLookupAsWritten(key: string): (r: Option<Rule>)
  {
    ModificationRules(key)
  }

  /** The lookup as evidently intended: an unknown name gets the empty rule. */
  function RuleLookup(key: string): Rule {
    if ModificationRules(key).Some? then ModificationRules(key).value else EmptyRule
  }

  /** An unknown name's rule contributes nothing at any position. */
  lemma UnknownRuleIsEmpty(key: string, p: Position)
    requires RuleLookupAsWritten(key).None?
    ensures Apply(RuleLookup(key), p) == EmptyComposition
  {
  }

  /** For a name without a rule, the written lookup fails where the intended one contributes nothing. */
  lemma RuleLookupUnknownName()
    ensures RuleLookupAsWritten("en").None?
    ensures Apply(RuleLookup("en"), At(2)) == EmptyComposition
  {
  }

  /** Wherever the written lookup succeeds, the intended one gives the same rule. */
  lemma RuleLookupAgrees(key: string)
    requires RuleLookupAsWritten(key).Some?
    ensures RuleLookup(key) == RuleLookupAsWritten(key).value
  {
  }

  /** The acid rule: at position 1 the hydrogen shift cancels the base loss, elsewhere the base delta applies. */
  lemma AcidRuleShift(p: Position)
    ensures Apply(RuleLookup("a"), p) == if p == At(1) then Composition(o := 1) else Composition(h := -2, o := 1)
  {
    var rule := ModificationRules("a").value;
    assert rule.shifts == map[At(1) := Composition(h := 2)];
    if p == At(1) {
      assert Apply(rule, p) == Add(Composition(h := -2, o := 1), Composition(h := 2));
    } else {
      assert p !in rule.shifts;
    }
  }

  /** Deoxy and keto rules do not depend on the position. */
  lemma PositionIndependentRules(p: Position, q: Position)
    ensures Apply(RuleLookup("d"), p) == Apply(RuleLookup("d"), q) == Composition(o := -1)
    ensures Apply(RuleLookup("keto"), p) == Apply(RuleLookup("keto"), q) == Composition(h := -2)
  {
    var deoxy := ModificationRules("d").value;
    var keto := ModificationRules("keto").value;
    assert RuleLookup("d") == deoxy && deoxy.shifts == map[];
    assert RuleLookup("keto") == keto && keto.shifts == map[];
    assert Add(deoxy.base, EmptyComposition) == Composition(o := -1);
    assert Add(keto.base, EmptyComposition) == Composition(h := -2);
  }
}
