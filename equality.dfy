/**
 * The equality tests of pygly2/structure/monosaccharide.py: the flat
 * comparison of a residue's own fields, exact-order equality, greedy
 * topological equality with its substituent matching, and the equality of
 * reduced ends.
 *
 * The recursive tests walk two structures side by side and would not stop
 * on a cycle; here they carry a depth bound `fuel`, and subtrees below it
 * are not compared.
 */
module Equality {
  import opened Wrappers
  import opened MultiMaps
  import opened Enums
  import opened Compositions
  import opened Graphs
  import opened Monosaccharides
  import opened ResidueQueries

  // ---------------------------------------------------------------------------
  // Substituents and reduced ends

  /** The name of a stored substituent; any other node has none. */
  function SubstituentName(g: Graph, n: NodeRef): Option<string> {
    if n.SubstituentNode? && n.h in g.substituents then Some(g.substituents[n.h].name) else None
  }

  /** Substituents compare by name. */
  predicate SubstituentEq(g1: Graph, n1: NodeRef, g2: Graph, n2: NodeRef) {
    SubstituentName(g1, n1) == SubstituentName(g2, n2)
  }

  /** The name of the substituent a stored link holds as its child. */
  function LinkedName(g: Graph, k: nat): Option<string> {
    if k in g.links then SubstituentName(g, g.links[k].child) else None
  }

  /** The one exception `ReducedEnd.__eq__` can raise: subscripting the `None` that `izip_longest` pads with. */
  datatype EqError = NoneNotSubscriptable

  function ReducedEndItems(g: Graph, e: nat): Entries {
    Items(Table(g, LinksOf(ReducedEndNode(e))))
  }

  /** The `izip_longest` loop of `ReducedEnd.__eq__` as written. */
  function PairsAsWritten(g1: Graph, xs: Entries, g2: Graph, ys: Entries): Result<bool, EqError>
    decreases |xs|
  {
    if |xs| == 0 && |ys| == 0 then Ok(true)
    else if |xs| == 0 || |ys| == 0 then Err(NoneNotSubscriptable)
    else if xs[0].0 != ys[0].0 || LinkedName(g1, xs[0].1) != LinkedName(g2, ys[0].1) then Ok(false)
    else PairsAsWritten(g1, xs[1..], g2, ys[1..])
  }

  /** The first `n` pairs agree in position and substituent. */
  predicate PrefixAgrees(g1: Graph, xs: Entries, g2: Graph, ys: Entries, n: nat)
    requires n <= |xs| && n <= |ys|
  {
    forall i | 0 <= i < n :: xs[i].0 == ys[i].0 && LinkedName(g1, xs[i].1) == LinkedName(g2, ys[i].1)
  }

  /** `ReducedEnd.__eq__` between two reduced ends, as written. */
  function ReducedEndEqAsWritten(g1: Graph, e1: nat, g2: Graph, e2: nat): Result<bool, EqError> {
    if CompositionOf(g1, ReducedEndNode(e1)) != CompositionOf(g2, ReducedEndNode(e2)) then Ok(false)
    else PairsAsWritten(g1, ReducedEndItems(g1, e1), g2, ReducedEndItems(g2, e2))
  }

  /** The evident intent: equal compositions, and the same substituents at the same positions in the same order. */
  predicate ReducedEndEq(g1: Graph, e1: nat, g2: Graph, e2: nat) {
    var (xs, ys) := (ReducedEndItems(g1, e1), ReducedEndItems(g2, e2));
    CompositionOf(g1, ReducedEndNode(e1)) == CompositionOf(g2, ReducedEndNode(e2)) &&
    |xs| == |ys| && PrefixAgrees(g1, xs, g2, ys, |xs|)
  }

  lemma {:induction false} PairsAsWrittenShape(g1: Graph, xs: Entries, g2: Graph, ys: Entries)
    ensures var m := if |xs| <= |ys| then |xs| else |ys|;
      PairsAsWritten(g1, xs, g2, ys).Err? <==> |xs| != |ys| && PrefixAgrees(g1, xs, g2, ys, m)
    ensures PairsAsWritten(g1, xs, g2, ys).Ok? ==>
      (PairsAsWritten(g1, xs, g2, ys).value <==> |xs| == |ys| && PrefixAgrees(g1, xs, g2, ys, |xs|))
    decreases |xs|
  {
    if |xs| > 0 && |ys| > 0 {
      PairsAsWrittenShape(g1, xs[1..], g2, ys[1..]);
      var m := if |xs| <= |ys| then |xs| else |ys|;
      assert PrefixAgrees(g1, xs, g2, ys, m) <==>
        xs[0].0 == ys[0].0 && LinkedName(g1, xs[0].1) == LinkedName(g2, ys[0].1) &&
        PrefixAgrees(g1, xs[1..], g2, ys[1..], m - 1) by {
        if PrefixAgrees(g1, xs, g2, ys, m) {
          forall i | 0 <= i < m - 1
            ensures xs[1..][i].0 == ys[1..][i].0 && LinkedName(g1, xs[1..][i].1) == LinkedName(g2, ys[1..][i].1)
          {
            assert xs[1..][i] == xs[i + 1] && ys[1..][i] == ys[i + 1];
          }
        }
        if xs[0].0 == ys[0].0 && LinkedName(g1, xs[0].1) == LinkedName(g2, ys[0].1) &&
           PrefixAgrees(g1, xs[1..], g2, ys[1..], m - 1) {
          forall i | 0 <= i < m
            ensures xs[i].0 == ys[i].0 && LinkedName(g1, xs[i].1) == LinkedName(g2, ys[i].1)
          {
            if i > 0 {
              assert xs[1..][i - 1] == xs[i] && ys[1..][i - 1] == ys[i];
            }
          }
        }
      }
      if |xs| == |ys| {
        assert PrefixAgrees(g1, xs, g2, ys, |xs|) == PrefixAgrees(g1, xs, g2, ys, m);
      }
    }
  }

  /**
   * As written, `ReducedEnd.__eq__` raises exactly when the compositions
   * agree, the link counts differ and every pair the shorter side has
   * agrees; whenever it answers, the answer is the intended one.
   */
  lemma ReducedEndEqAsWrittenRaises(g1: Graph, e1: nat, g2: Graph, e2: nat)
    ensures var (xs, ys) := (ReducedEndItems(g1, e1), ReducedEndItems(g2, e2));
      var m := if |xs| <= |ys| then |xs| else |ys|;
      ReducedEndEqAsWritten(g1, e1, g2, e2).Err? <==>
        CompositionOf(g1, ReducedEndNode(e1)) == CompositionOf(g2, ReducedEndNode(e2)) &&
        |xs| != |ys| && PrefixAgrees(g1, xs, g2, ys, m)
    ensures ReducedEndEqAsWritten(g1, e1, g2, e2).Ok? ==>
      (ReducedEndEqAsWritten(g1, e1, g2, e2).value <==> ReducedEndEq(g1, e1, g2, e2))
  {
    PairsAsWrittenShape(g1, ReducedEndItems(g1, e1), g2, ReducedEndItems(g2, e2));
  }

  /** A reduced end without substituents against one with a substituent and the same composition: as written, TypeError. */
  lemma ReducedEndEqRaisesOnExtraLink(g1: Graph, e1: nat, g2: Graph, e2: nat)
    requires CompositionOf(g1, ReducedEndNode(e1)) == CompositionOf(g2, ReducedEndNode(e2))
    requires |ReducedEndItems(g1, e1)| == 0 < |ReducedEndItems(g2, e2)|
    ensures ReducedEndEqAsWritten(g1, e1, g2, e2) == Err(NoneNotSubscriptable)
    ensures !ReducedEndEq(g1, e1, g2, e2)
  {
  }

  lemma ReducedEndEqReflexive(g: Graph, e: nat)
    ensures ReducedEndEq(g, e, g, e)
  {
  }

  // ---------------------------------------------------------------------------
  // The flat comparison

  /**
   * `==` between two entries of `modifications`. A Modification member
   * against a ReducedEnd object falls back on comparing its name with the
   * string the ReducedEnd equals, `aldi`; a ReducedEnd object compared with a
   * member is never equal.
   */
  predicate ModifierEq(g1: Graph, a: Modifier, g2: Graph, b: Modifier) {
    match (a, b)
    case (Mod(x), Mod(y)) => Eq(x, y)
    case (Mod(x), ReducedMarker(_)) => x.name == "aldi"
    case (ReducedMarker(_), Mod(_)) => false
    case (ReducedMarker(e1), ReducedMarker(e2)) => ReducedEndEq(g1, e1, g2, e2)
  }

  /** `OrderedMultiMap.__eq__`: the two item sequences pair by pair, and of the same length. */
  predicate ModsEq(g1: Graph, xs: seq<(Position, Modifier)>, g2: Graph, ys: seq<(Position, Modifier)>) {
    |xs| == |ys| && forall i | 0 <= i < |xs| :: xs[i].0 == ys[i].0 && ModifierEq(g1, xs[i].1, g2, ys[i].1)
  }

  /** Tuple equality of `configuration` and `stem`. */
  predicate EnumsEq(a: seq<EnumValue>, b: seq<EnumValue>) {
    |a| == |b| && forall i | 0 <= i < |a| :: Eq(a[i], b[i])
  }

  /** `_flat_equality(other, lengths)` */
  predicate FlatEq(g1: Graph, a: nat, g2: Graph, b: nat, lengths: bool)
    requires a in g1.residues && b in g2.residues
    requires SubstituentLinksKnown(g1, a) && SubstituentLinksKnown(g2, b)
  {
    var (r, s) := (g1.residues[a], g2.residues[b]);
    Eq(r.anomer, s.anomer) && r.ringStart == s.ringStart && r.ringEnd == s.ringEnd &&
    Eq(r.superclass, s.superclass) && ModsEq(g1, Items(Mods(g1, a)), g2, Items(Mods(g2, b))) &&
    EnumsEq(r.configuration, s.configuration) && EnumsEq(r.stem, s.stem) &&
    (lengths ==>
      Len(Table(g1, LinksOf(ResidueNode(a)))) == Len(Table(g2, LinksOf(ResidueNode(b)))) &&
      Len(Table(g1, SubstituentLinksOf(a))) == Len(Table(g2, SubstituentLinksOf(b))) &&
      TotalComposition(g1, a) == TotalComposition(g2, b))
  }

  lemma FlatEqReflexive(g: Graph, a: nat, lengths: bool)
    requires a in g.residues && SubstituentLinksKnown(g, a)
    ensures FlatEq(g, a, g, a, lengths)
  {
    var xs := Items(Mods(g, a));
    forall i | 0 <= i < |xs| ensures ModifierEq(g, xs[i].1, g, xs[i].1) {
      if xs[i].1.ReducedMarker? {
        ReducedEndEqReflexive(g, xs[i].1.h);
      }
    }
  }

  /** Dropping the lengths check only weakens the comparison. */
  lemma FlatEqLengths(g1: Graph, a: nat, g2: Graph, b: nat)
    requires a in g1.residues && b in g2.residues
    requires SubstituentLinksKnown(g1, a) && SubstituentLinksKnown(g2, b)
    ensures FlatEq(g1, a, g2, b, true) ==> FlatEq(g1, a, g2, b, false)
    ensures FlatEq(g1, a, g2, b, true) ==> TotalComposition(g1, a) == TotalComposition(g2, b)
  {
  }

  // ---------------------------------------------------------------------------
  // Exact-order equality

  /** Every residue's tables name stored links, and every child of a residue is a stored residue. */
  predicate Closed(g: Graph) {
    forall h | h in g.residues ::
      LinksKnown(g, h) && SubstituentLinksKnown(g, h) &&
      forall i | 0 <= i < |Children(g, h)| :: Children(g, h)[i].1.ResidueNode? && Children(g, h)[i].1.h in g.residues
  }

  /** The `zip` over the substituents: pairs up to the shorter list agree in position and name. */
  predicate SubstituentsZip(g1: Graph, xs: seq<Neighbour>, g2: Graph, ys: seq<Neighbour>) {
    forall i | 0 <= i < |xs| && i < |ys| :: xs[i].0 == ys[i].0 && SubstituentEq(g1, xs[i].1, g2, ys[i].1)
  }

  /**
   * `exact_ordering_equality(other, substituents)`: flat equality with
   * lengths, the substituents pairwise when asked, and the children
   * pairwise, each pair at the same position and exactly equal in turn.
   * The source's second pass over the modifications repeats what the flat
   * test has already compared and is not repeated here.
   */
  predicate ExactEq(g1: Graph, a: nat, g2: Graph, b: nat, substituents: bool, fuel: nat)
    requires Closed(g1) && Closed(g2) && a in g1.residues && b in g2.residues
    decreases fuel, 1
  {
    fuel == 0 ||
    (FlatEq(g1, a, g2, b, true) &&
     (substituents ==> SubstituentsZip(g1, Substituents(g1, a), g2, Substituents(g2, b))) &&
     ChildrenZip(g1, Children(g1, a), g2, Children(g2, b), substituents, fuel))
  }

  /** The `zip` over the children, stopping at the shorter list. */
  predicate ChildrenZip(g1: Graph, xs: seq<Neighbour>, g2: Graph, ys: seq<Neighbour>, substituents: bool, fuel: nat)
    requires Closed(g1) && Closed(g2) && fuel > 0
    decreases fuel, 0, |xs|
  {
    if |xs| == 0 || |ys| == 0 then true
    else
      xs[0].0 == ys[0].0 &&
      xs[0].1.ResidueNode? && xs[0].1.h in g1.residues && ys[0].1.ResidueNode? && ys[0].1.h in g2.residues &&
      ExactEq(g1, xs[0].1.h, g2, ys[0].1.h, substituents, fuel - 1) &&
      ChildrenZip(g1, xs[1..], g2, ys[1..], substituents, fuel)
  }

  /** A residue is exactly equal to itself. */
  lemma {:induction false} ExactEqReflexive(g: Graph, a: nat, substituents: bool, fuel: nat)
    requires Closed(g) && a in g.residues
    ensures ExactEq(g, a, g, a, substituents, fuel)
    decreases fuel, 1
  {
    if fuel > 0 {
      FlatEqReflexive(g, a, true);
      ChildrenZipReflexive(g, a, 0, substituents, fuel);
    }
  }

  lemma {:induction false} ChildrenZipReflexive(g: Graph, a: nat, i: nat, substituents: bool, fuel: nat)
    requires Closed(g) && a in g.residues && fuel > 0 && i <= |Children(g, a)|
    ensures ChildrenZip(g, Children(g, a)[i..], g, Children(g, a)[i..], substituents, fuel)
    decreases fuel, 0, |Children(g, a)| - i
  {
    var cs := Children(g, a);
    if i < |cs| {
      assert cs[i..][0] == cs[i] && cs[i..][1..] == cs[i + 1..];
      ExactEqReflexive(g, cs[i].1.h, substituents, fuel - 1);
      ChildrenZipReflexive(g, a, i + 1, substituents, fuel);
    }
  }

  /** Exact equality rests on flat equality: same fields, same link counts, same total composition. */
  lemma ExactEqIsFlat(g1: Graph, a: nat, g2: Graph, b: nat, substituents: bool, fuel: nat)
    requires Closed(g1) && Closed(g2) && a in g1.residues && b in g2.residues && fuel > 0
    requires ExactEq(g1, a, g2, b, substituents, fuel)
    ensures FlatEq(g1, a, g2, b, true) && TotalComposition(g1, a) == TotalComposition(g2, b)
  {
  }

  // ---------------------------------------------------------------------------
  // Substituent matching

  function PositionSet(ys: seq<Neighbour>): set<Position> {
    if |ys| == 0 then {} else PositionSet(ys[..|ys| - 1]) + {ys[|ys| - 1].0}
  }

  /** The first substituent of `ys` from `j` on, not at a claimed position, equal to `x`. */
  function ClaimByPosition(g1: Graph, x: Neighbour, g2: Graph, ys: seq<Neighbour>, j: nat, taken: set<Position>): (r: Option<nat>)
    requires j <= |ys|
    ensures r.Some? ==> j <= r.value < |ys| && ys[r.value].0 !in taken
    decreases |ys| - j
  {
    if j == |ys| then None
    else if ys[j].0 !in taken && SubstituentEq(g2, ys[j].1, g1, x.1) then Some(j)
    else ClaimByPosition(g1, x, g2, ys, j + 1, taken)
  }

  /** The loop of `_match_substituents` as written: a claim is recorded by its position. */
  predicate MatchByPosition(g1: Graph, xs: seq<Neighbour>, g2: Graph, ys: seq<Neighbour>, taken: set<Position>) {
    if |xs| == 0 then |taken| == |ys|
    else
      match ClaimByPosition(g1, xs[0], g2, ys, 0, taken)
      case None => false
      case Some(j) => MatchByPosition(g1, xs[1..], g2, ys, taken + {ys[j].0})
  }

  /** `_match_substituents(other)` as written. */
  predicate MatchSubstituentsAsWritten(g1: Graph, a: nat, g2: Graph, b: nat)
    requires SubstituentLinksKnown(g1, a) && SubstituentLinksKnown(g2, b)
  {
    MatchByPosition(g1, Substituents(g1, a), g2, Substituents(g2, b), {})
  }

  lemma {:induction false} PositionSetMembers(ys: seq<Neighbour>, j: nat)
    requires j < |ys|
    ensures ys[j].0 in PositionSet(ys)
    decreases |ys|
  {
    if j < |ys| - 1 {
      assert ys[..|ys| - 1][j] == ys[j];
      PositionSetMembers(ys[..|ys| - 1], j);
    }
  }

  /** Two substituents at one position leave fewer positions than substituents. */
  lemma {:induction false} PositionSetShared(ys: seq<Neighbour>, i: nat, j: nat)
    requires i < j < |ys| && ys[i].0 == ys[j].0
    ensures |PositionSet(ys)| < |ys|
    decreases |ys|
  {
    var init := ys[..|ys| - 1];
    PositionSetBound(init);
    if j == |ys| - 1 {
      assert init[i] == ys[i];
      PositionSetMembers(init, i);
    } else {
      assert init[i] == ys[i] && init[j] == ys[j];
      PositionSetShared(init, i, j);
    }
  }

  lemma {:induction false} PositionSetBound(ys: seq<Neighbour>)
    ensures |PositionSet(ys)| <= |ys|
    decreases |ys|
  {
    if |ys| > 0 {
      PositionSetBound(ys[..|ys| - 1]);
    }
  }

  lemma {:induction false} MatchByPositionNeedsPositions(g1: Graph, xs: seq<Neighbour>, g2: Graph, ys: seq<Neighbour>, taken: set<Position>)
    requires taken <= PositionSet(ys) && MatchByPosition(g1, xs, g2, ys, taken)
    ensures |ys| <= |PositionSet(ys)|
    decreases |xs|
  {
    if |xs| == 0 {
      SubsetCard(taken, PositionSet(ys));
    } else {
      var j := ClaimByPosition(g1, xs[0], g2, ys, 0, taken).value;
      PositionSetMembers(ys, j);
      MatchByPositionNeedsPositions(g1, xs[1..], g2, ys, taken + {ys[j].0});
    }
  }

  lemma SubsetCard<T>(a: set<T>, b: set<T>)
    requires a <= b
    ensures |a| <= |b|
  {
    assert b == a + (b - a);
  }

  /**
   * As written, a residue whose substituents include two at the same
   * position matches no residue at all, itself included: one claim takes
   * the position from every substituent placed there.
   */
  lemma MatchSubstituentsFailsOnSharedPosition(g1: Graph, a: nat, g2: Graph, b: nat, i: nat, j: nat)
    requires SubstituentLinksKnown(g1, a) && SubstituentLinksKnown(g2, b)
    requires i < j < |Substituents(g2, b)| && Substituents(g2, b)[i].0 == Substituents(g2, b)[j].0
    ensures !MatchSubstituentsAsWritten(g1, a, g2, b)
  {
    var ys := Substituents(g2, b);
    PositionSetShared(ys, i, j);
    if MatchSubstituentsAsWritten(g1, a, g2, b) {
      MatchByPositionNeedsPositions(g1, Substituents(g1, a), g2, ys, {});
    }
  }

  /** The first unclaimed substituent of `ys` from `j` on equal to `x`, claims recorded by index. */
  function ClaimByIndex(g1: Graph, x: Neighbour, g2: Graph, ys: seq<Neighbour>, j: nat, taken: set<nat>): (r: Option<nat>)
    requires j <= |ys|
    ensures r.Some? ==> j <= r.value < |ys| && r.value !in taken
    decreases |ys| - j
  {
    if j == |ys| then None
    else if j !in taken && SubstituentEq(g2, ys[j].1, g1, x.1) then Some(j)
    else ClaimByIndex(g1, x, g2, ys, j + 1, taken)
  }

  predicate MatchByIndex(g1: Graph, xs: seq<Neighbour>, g2: Graph, ys: seq<Neighbour>, taken: set<nat>) {
    if |xs| == 0 then |taken| == |ys|
    else
      match ClaimByIndex(g1, xs[0], g2, ys, 0, taken)
      case None => false
      case Some(j) => MatchByIndex(g1, xs[1..], g2, ys, taken + {j})
  }

  /** `_match_substituents` as intended: each substituent claims one unclaimed equal substituent of the other. */
  predicate MatchSubstituents(g1: Graph, a: nat, g2: Graph, b: nat)
    requires SubstituentLinksKnown(g1, a) && SubstituentLinksKnown(g2, b)
  {
    MatchByIndex(g1, Substituents(g1, a), g2, Substituents(g2, b), {})
  }

  function Below(n: nat): (r: set<nat>)
    ensures forall k: nat :: k in r <==> k < n
    ensures |r| == n
  {
    if n == 0 then {} else
      var s := Below(n - 1);
      assert n - 1 !in s;
      s + {n - 1}
  }

  lemma {:induction false} ClaimByIndexSelf(g: Graph, ys: seq<Neighbour>, i: nat, j: nat)
    requires j <= i < |ys|
    ensures ClaimByIndex(g, ys[i], g, ys, j, Below(i)) == Some(i)
    decreases i - j
  {
    if j < i {
      ClaimByIndexSelf(g, ys, i, j + 1);
    }
  }

  lemma {:induction false} MatchByIndexSelf(g: Graph, ys: seq<Neighbour>, i: nat)
    requires i <= |ys|
    ensures MatchByIndex(g, ys[i..], g, ys, Below(i))
    decreases |ys| - i
  {
    if i < |ys| {
      ClaimByIndexSelf(g, ys, i, 0);
      assert ys[i..][0] == ys[i] && ys[i..][1..] == ys[i + 1..];
      assert Below(i) + {i} == Below(i + 1);
      MatchByIndexSelf(g, ys, i + 1);
    }
  }

  /** As intended, every residue's substituents match its own. */
  lemma MatchSubstituentsReflexive(g: Graph, a: nat)
    requires SubstituentLinksKnown(g, a)
    ensures MatchSubstituents(g, a, g, a)
  {
    MatchByIndexSelf(g, Substituents(g, a), 0);
    assert Substituents(g, a)[0..] == Substituents(g, a);
  }

  // ---------------------------------------------------------------------------
  // Topological equality

  /** A claim on a child of `other` is recorded as `(position, child.id)`. */
  function Key(g: Graph, y: Neighbour): (Position, int) {
    (y.0, NodeId(g, y.1))
  }

  /**
   * `topological_equality(other, substituents)`: flat equality with
   * lengths, the substituents matched when asked, and the children matched
   * greedily.
   */
  predicate TopoEq(g1: Graph, a: nat, g2: Graph, b: nat, substituents: bool, fuel: nat)
    requires Closed(g1) && Closed(g2) && a in g1.residues && b in g2.residues
    decreases fuel, 2
  {
    fuel == 0 ||
    (FlatEq(g1, a, g2, b, true) &&
     (!substituents || MatchSubstituents(g1, a, g2, b)) &&
     MatchChildren(g1, Children(g1, a), g2, Children(g2, b), {}, substituents, fuel))
  }

  /** Each child of `xs` in turn claims a child of `ys`; at the end every child of `ys` must be claimed. */
  predicate MatchChildren(g1: Graph, xs: seq<Neighbour>, g2: Graph, ys: seq<Neighbour>, taken: set<(Position, int)>,
                          substituents: bool, fuel: nat)
    requires Closed(g1) && Closed(g2) && fuel > 0
    decreases fuel, 1, |xs|
  {
    if |xs| == 0 then |taken| == |ys|
    else
      match ClaimChild(g1, xs[0], g2, ys, 0, taken, substituents, fuel)
      case None => false
      case Some(j) => MatchChildren(g1, xs[1..], g2, ys, taken + {Key(g2, ys[j])}, substituents, fuel)
  }

  /** The inner loop: the first child of `ys` from `j` on whose key is unclaimed and that is topologically equal to `x`. */
  function ClaimChild(g1: Graph, x: Neighbour, g2: Graph, ys: seq<Neighbour>, j: nat, taken: set<(Position, int)>,
                      substituents: bool, fuel: nat): (r: Option<nat>)
    requires Closed(g1) && Closed(g2) && fuel > 0 && j <= |ys|
    ensures r.Some? ==> j <= r.value < |ys| && Key(g2, ys[r.value]) !in taken
    decreases fuel, 0, |ys| - j
  {
    if j == |ys| then None
    else if Key(g2, ys[j]) !in taken &&
            x.1.ResidueNode? && x.1.h in g1.residues && ys[j].1.ResidueNode? && ys[j].1.h in g2.residues &&
            TopoEq(g1, x.1.h, g2, ys[j].1.h, substituents, fuel - 1)
    then Some(j)
    else ClaimChild(g1, x, g2, ys, j + 1, taken, substituents, fuel)
  }

  function KeySet(g: Graph, ys: seq<Neighbour>): set<(Position, int)> {
    if |ys| == 0 then {} else KeySet(g, ys[..|ys| - 1]) + {Key(g, ys[|ys| - 1])}
  }

  /** No two children of a residue share a position and an id. */
  predicate DistinctKeys(g: Graph, ys: seq<Neighbour>) {
    forall i, j | 0 <= i < j < |ys| :: Key(g, ys[i]) != Key(g, ys[j])
  }

  predicate DistinctChildKeys(g: Graph)
    requires Closed(g)
  {
    forall h | h in g.residues :: DistinctKeys(g, Children(g, h))
  }

  lemma {:induction false} KeySetMembers(g: Graph, ys: seq<Neighbour>, k: (Position, int))
    ensures k in KeySet(g, ys) <==> exists i | 0 <= i < |ys| :: Key(g, ys[i]) == k
    decreases |ys|
  {
    if |ys| > 0 {
      var init := ys[..|ys| - 1];
      KeySetMembers(g, init, k);
      if k in KeySet(g, init) {
        var i :| 0 <= i < |init| && Key(g, init[i]) == k;
        assert ys[i] == init[i];
      }
      if exists i | 0 <= i < |ys| :: Key(g, ys[i]) == k {
        var i :| 0 <= i < |ys| && Key(g, ys[i]) == k;
        if i < |init| {
          assert init[i] == ys[i];
        }
      }
    }
  }

  lemma {:induction false} KeySetSize(g: Graph, ys: seq<Neighbour>)
    requires DistinctKeys(g, ys)
    ensures |KeySet(g, ys)| == |ys|
    decreases |ys|
  {
    if |ys| > 0 {
      var init := ys[..|ys| - 1];
      assert DistinctKeys(g, init) by {
        forall i, j | 0 <= i < j < |init| ensures Key(g, init[i]) != Key(g, init[j]) {
          assert init[i] == ys[i] && init[j] == ys[j];
        }
      }
      KeySetSize(g, init);
      KeySetMembers(g, init, Key(g, ys[|ys| - 1]));
    }
  }

  /** With distinct keys, a residue is topologically equal to itself. */
  lemma {:induction false} TopoEqReflexive(g: Graph, a: nat, substituents: bool, fuel: nat)
    requires Closed(g) && DistinctChildKeys(g) && a in g.residues
    ensures TopoEq(g, a, g, a, substituents, fuel)
    decreases fuel, 2
  {
    if fuel > 0 {
      FlatEqReflexive(g, a, true);
      MatchSubstituentsReflexive(g, a);
      MatchChildrenSelf(g, a, 0, substituents, fuel);
      assert Children(g, a)[0..] == Children(g, a);
    }
  }

  lemma {:induction false} MatchChildrenSelf(g: Graph, a: nat, i: nat, substituents: bool, fuel: nat)
    requires Closed(g) && DistinctChildKeys(g) && a in g.residues && fuel > 0 && i <= |Children(g, a)|
    ensures MatchChildren(g, Children(g, a)[i..], g, Children(g, a), KeySet(g, Children(g, a)[..i]), substituents, fuel)
    decreases fuel, 1, |Children(g, a)| - i
  {
    var ys := Children(g, a);
    if i < |ys| {
      var xs, taken := ys[i..], KeySet(g, ys[..i]);
      ClaimChildSelf(g, a, i, 0, substituents, fuel);
      assert xs[0] == ys[i] && xs[1..] == ys[i + 1..];
      assert KeySet(g, ys[..i + 1]) == taken + {Key(g, ys[i])} by {
        assert ys[..i + 1][..i] == ys[..i] && ys[..i + 1][i] == ys[i];
      }
      MatchChildrenSelf(g, a, i + 1, substituents, fuel);
      MatchChildrenStep(g, xs, g, ys, taken, substituents, fuel, i);
    } else {
      assert ys[..i] == ys;
      KeySetSize(g, ys);
    }
  }

  /** A claimed child moves its key into the taken set and matching goes on with the rest. */
  lemma MatchChildrenStep(g1: Graph, xs: seq<Neighbour>, g2: Graph, ys: seq<Neighbour>, taken: set<(Position, int)>,
                          substituents: bool, fuel: nat, j: nat)
    requires Closed(g1) && Closed(g2) && fuel > 0 && |xs| > 0
    requires ClaimChild(g1, xs[0], g2, ys, 0, taken, substituents, fuel) == Some(j)
    ensures j < |ys|
    ensures MatchChildren(g1, xs, g2, ys, taken, substituents, fuel) ==
            MatchChildren(g1, xs[1..], g2, ys, taken + {Key(g2, ys[j])}, substituents, fuel)
  {
  }

  lemma {:induction false} ClaimChildSelf(g: Graph, a: nat, i: nat, j: nat, substituents: bool, fuel: nat)
    requires Closed(g) && DistinctChildKeys(g) && a in g.residues && fuel > 0 && j <= i < |Children(g, a)|
    ensures ClaimChild(g, Children(g, a)[i], g, Children(g, a), j, KeySet(g, Children(g, a)[..i]), substituents, fuel) == Some(i)
    decreases fuel, 0, i - j
  {
    var ys := Children(g, a);
    KeySetMembers(g, ys[..i], Key(g, ys[j]));
    if j < i {
      assert ys[..i][j] == ys[j];
      ClaimChildSelf(g, a, i, j + 1, substituents, fuel);
    } else {
      TopoEqReflexive(g, ys[i].1.h, substituents, fuel - 1);
    }
  }
}
