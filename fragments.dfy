/**
 * What `Glycan.break_links` and `Glycan.break_links_subtrees`
 * (pygly2/structure/glycan.py) enumerate. For every glycosidic link met by
 * `iterlinks`, the link is broken, the two sides are taken as structures
 * rooted at the link's parent and child, deeper cleavages are enumerated
 * on those sides when more are asked for, and the link is applied again.
 *
 * Each function returns the fragments together with the graph the
 * enumeration leaves behind, so that the state after each link is the state
 * the next one starts from; the lemmas show that the graph is given back.
 * Masses are replaced by elemental compositions.
 */
module Fragments {
  import opened Wrappers
  import opened MultiMaps
  import opened Compositions
  import opened Graphs
  import opened ResidueQueries
  import opened Traversals

  /** `fragment_shift`: what each glycosidic ion kind loses besides its side of the structure. */
  function FragmentShift(kind: char): Option<Composition> {
    if kind == 'B' || kind == 'Z' then Some(Water)
    else if kind == 'Y' || kind == 'C' then Some(EmptyComposition)
    else None
  }

  /** `Composition(H=2, O=1)` */
  const Water: Composition := Composition(h := 2, o := 1)

  /** `fragment_direction`: -1 for the ions holding the non-reducing side, +1 for those holding the reducing side. */
  function FragmentDirection(kind: char): Option<int> {
    if kind in "ABC" then Some(-1)
    else if kind in "XYZ" then Some(1)
    else None
  }

  /** `kind & set("YZ")`: the ions that keep the parent (reducing) side of a broken link, Y before Z. */
  function ParentSide(kinds: set<char>): string {
    (if 'Y' in kinds then "Y" else "") + (if 'Z' in kinds then "Z" else "")
  }

  /** `kind & set("BC")`: the ions that keep the child (non-reducing) side of a broken link, B before C. */
  function ChildSide(kinds: set<char>): string {
    (if 'B' in kinds then "B" else "") + (if 'C' in kinds then "C" else "")
  }

  /** Both sides of one bond share a direction with `name_fragment`'s reading of the ion kinds. */
  lemma SidesHaveDirections(kinds: set<char>)
    ensures forall i | 0 <= i < |ParentSide(kinds)| ::
      FragmentDirection(ParentSide(kinds)[i]) == Some(1) && FragmentShift(ParentSide(kinds)[i]).Some?
    ensures forall i | 0 <= i < |ChildSide(kinds)| ::
      FragmentDirection(ChildSide(kinds)[i]) == Some(-1) && FragmentShift(ChildSide(kinds)[i]).Some?
  {
  }

  /** The two complementary pairs B/Y and C/Z each lose one water between them. */
  lemma ComplementaryShifts()
    ensures Add(Shift('B'), Shift('Y')) == Water
    ensures Add(Shift('C'), Shift('Z')) == Water
  {
    assert Shift('B') == Water && Shift('Z') == Water;
    assert Shift('Y') == EmptyComposition && Shift('C') == EmptyComposition;
    AddEmpty(Water);
    AddCommutes(EmptyComposition, Water);
  }

  /** `kind & set("YZ")` and `kind & set("BC")` hold requested glycosidic ion kinds only. */
  lemma SidesChosen(kinds: set<char>)
    ensures forall i | 0 <= i < |ParentSide(kinds)| :: ParentSide(kinds)[i] in kinds && ParentSide(kinds)[i] in "YZ"
    ensures forall i | 0 <= i < |ChildSide(kinds)| :: ChildSide(kinds)[i] in kinds && ChildSide(kinds)[i] in "BC"
  {
  }

  function Shift(kind: char): Composition {
    match FragmentShift(kind)
    case Some(c) => c
    case None => EmptyComposition
  }

  /** A `Fragment`: the ion kinds, the ids of the links broken, the ids of the residues kept, and the composition in place of the mass. */
  datatype Fragment = Fragment(kind: string, linkIds: seq<int>, included: seq<int>, composition: Composition)

  /** The fragments an enumeration yields, and the graph it leaves behind. */
  datatype Enumeration = Enumeration(fragments: seq<Fragment>, graph: Graph)

  /** `Glycan(root=n)`: the residues reached from a link end; an end that is not a residue reaches none. */
  function Side(g: Graph, n: NodeRef): seq<nat> {
    if n.ResidueNode? then Traverse(g, [n.h], {}, true) else []
  }

  /** `[n.id for n in tree]` */
  function IdList(g: Graph, nodes: seq<nat>): (r: seq<int>)
    ensures |r| == |nodes|
  {
    if |nodes| == 0 then []
    else [if nodes[0] in g.residues then g.residues[nodes[0]].id else 0] + IdList(g, nodes[1..])
  }

  /**
   * `node.total_composition()`; a residue whose substituent table names a
   * link that does not exist counts its own composition only.
   */
  function NodeTotal(g: Graph, h: nat): Composition {
    if h in g.residues && SubstituentLinksKnown(g, h) then TotalComposition(g, h) else CompositionOf(g, ResidueNode(h))
  }

  /** `Glycan.total_composition()`: the sum over the traversed residues. */
  function TreeComposition(g: Graph, nodes: seq<nat>): Composition {
    if |nodes| == 0 then EmptyComposition else Add(NodeTotal(g, nodes[0]), TreeComposition(g, nodes[1..]))
  }

  /** The handles `iterlinks` yields for the structure rooted at `from`. */
  function LinksFrom(g: Graph, from: NodeRef): seq<nat> {
    if from.ResidueNode? then Handles(IterLinksOf(g, Side(g, from), false)) else []
  }

  /** The last cleavage: one fragment per chosen ion, holding one side. */
  function Leaves(ions: string, breakId: int, included: seq<int>, total: Composition): (r: seq<Fragment>)
    ensures |r| == |ions|
    ensures forall i | 0 <= i < |r| :: r[i] == Fragment([ions[i]], [breakId], included, Sub(total, Shift(ions[i])))
  {
    if |ions| == 0 then []
    else [Fragment([ions[0]], [breakId], included, Sub(total, Shift(ions[0])))] + Leaves(ions[1..], breakId, included, total)
  }

  /** `ion_type + k, link_ids + [break_id], include, mass - offset` over the inner fragments, for one ion `k`. */
  function Extended(fs: seq<Fragment>, k: char, breakId: int): (r: seq<Fragment>)
    ensures |r| == |fs|
    ensures forall i | 0 <= i < |r| ::
      r[i] == Fragment(fs[i].kind + [k], fs[i].linkIds + [breakId], fs[i].included, Sub(fs[i].composition, Shift(k)))
  {
    if |fs| == 0 then []
    else
      [Fragment(fs[0].kind + [k], fs[0].linkIds + [breakId], fs[0].included, Sub(fs[0].composition, Shift(k)))] +
      Extended(fs[1..], k, breakId)
  }

  /** The inner fragments extended once for each chosen ion, ion by ion. */
  function ExtendedAll(fs: seq<Fragment>, ions: string, breakId: int): seq<Fragment> {
    if |ions| == 0 then [] else Extended(fs, ions[0], breakId) + ExtendedAll(fs, ions[1..], breakId)
  }

  /**
   * `break_links(n_links, kind, visited)` on the structure rooted at `from`:
   * `n_links` is decremented, then every link `iterlinks` yields is tried.
   */
  function BreakLinksOf(g: Graph, from: NodeRef, n: nat, kinds: set<char>, visited: set<int>): (r: Enumeration)
    ensures r.graph.links == g.links
    decreases n, 1, 0
  {
    BreakEach(g, LinksFrom(g, from), n - 1, kinds, visited)
  }

  function BreakEach(g: Graph, ks: seq<nat>, m: int, kinds: set<char>, visited: set<int>): (r: Enumeration)
    requires m >= -1
    ensures r.graph.links == g.links
    decreases m + 1, 0, |ks|
  {
    if |ks| == 0 then Enumeration([], g)
    else
      var one := BreakOne(g, ks[0], m, kinds, visited);
      var rest := BreakEach(one.graph, ks[1..], m, kinds, visited);
      Enumeration(one.fragments + rest.fragments, rest.graph)
  }

  /**
   * The body of the loop for one link: a link whose id is in `visited` or
   * that is not attached is skipped; otherwise it is broken with refund, the
   * fragments are formed, and the `finally` block applies it again.
   */
  function BreakOne(g: Graph, k: nat, m: int, kinds: set<char>, visited: set<int>): (r: Enumeration)
    requires m >= -1
    ensures r.graph.links == g.links
    decreases m + 1, 0, 0
  {
    if k !in g.links || g.links[k].id in visited || !g.links[k].attached then Enumeration([], g)
    else
      var l := g.links[k];
      var g1 := BreakLink(g, k, true);
      if m > 0 then
        var p := BreakLinksOf(g1, l.parent, m, kinds, visited);
        var c := BreakLinksOf(p.graph, l.child, m, kinds, visited);
        var fs := ExtendedAll(p.fragments, ParentSide(kinds), l.id) + ExtendedAll(c.fragments, ChildSide(kinds), l.id);
        Relinked(g.links, k);
        Enumeration(fs, ApplyLink(c.graph, k))
      else
        var pn := Side(g1, l.parent);
        var cn := Side(g1, l.child);
        var fs := Leaves(ParentSide(kinds), l.id, IdList(g1, pn), TreeComposition(g1, pn)) +
                  Leaves(ChildSide(kinds), l.id, IdList(g1, cn), TreeComposition(g1, cn));
        Relinked(g.links, k);
        Enumeration(fs, ApplyLink(g1, k))
  }

  /** Detaching an attached link and attaching it again gives back the arena. */
  lemma Relinked(links: map<nat, Link>, k: nat)
    requires k in links && links[k].attached
    ensures links[k := links[k].(attached := false)][k := links[k].(attached := false).(attached := true)] == links
  {
    assert links[k].(attached := false).(attached := true) == links[k];
  }

  /**
   * On a tidy graph the enumeration gives back exactly the graph it was
   * handed: every break is undone by the `finally` block, tables and
   * compositions included.
   */
  lemma {:induction false} BreakLinksRestores(g: Graph, from: NodeRef, n: nat, kinds: set<char>, visited: set<int>)
    requires Tidy(g)
    ensures BreakLinksOf(g, from, n, kinds, visited).graph == g
    decreases n, 1, 0
  {
    BreakEachRestores(g, LinksFrom(g, from), n - 1, kinds, visited);
  }

  lemma {:induction false} BreakEachRestores(g: Graph, ks: seq<nat>, m: int, kinds: set<char>, visited: set<int>)
    requires m >= -1 && Tidy(g)
    ensures BreakEach(g, ks, m, kinds, visited).graph == g
    decreases m + 1, 0, |ks|
  {
    if |ks| > 0 {
      BreakOneRestores(g, ks[0], m, kinds, visited);
      BreakEachRestores(g, ks[1..], m, kinds, visited);
    }
  }

  lemma {:induction false} BreakOneRestores(g: Graph, k: nat, m: int, kinds: set<char>, visited: set<int>)
    requires m >= -1 && Tidy(g)
    ensures BreakOne(g, k, m, kinds, visited).graph == g
    decreases m + 1, 0, 0
  {
    if k in g.links && g.links[k].id !in visited && g.links[k].attached {
      var l := g.links[k];
      var g1 := BreakLink(g, k, true);
      TidyAfterBreak(g, k);
      SoleSettled(g, k);
      BreakThenApply(g, k);
      if m > 0 {
        BreakLinksRestores(g1, l.parent, m, kinds, visited);
        var p := BreakLinksOf(g1, l.parent, m, kinds, visited);
        BreakLinksRestores(p.graph, l.child, m, kinds, visited);
      }
    }
  }

  /** The ids of the links in place that `visited` does not exclude: the links a cleavage may break. */
  function BreakableIds(links: map<nat, Link>, visited: set<int>): set<int> {
    set k | k in links && links[k].attached && links[k].id !in visited :: links[k].id
  }

  /** No two links of the arena share an id, as after `reindex`. */
  predicate InjectiveIds(links: map<nat, Link>) {
    forall a, b | a in links && b in links && links[a].id == links[b].id :: a == b
  }

  predicate Distinct(s: seq<int>) {
    forall i, j | 0 <= i < j < |s| :: s[i] != s[j]
  }

  /** How many bonds a fragment from `break_links(n)` records: `n`, and one when `n` is zero. */
  function Cleavages(n: int): nat {
    if n >= 1 then n else 1
  }

  /**
   * A fragment of `len` cleavages: one ion letter per broken link, each
   * letter a glycosidic ion kind that was asked for, each link one of `ids`.
   */
  predicate Shaped(f: Fragment, len: nat, ids: set<int>, kinds: set<char>) {
    |f.kind| == len && |f.linkIds| == len &&
    (forall i | 0 <= i < len :: f.kind[i] in kinds && f.kind[i] in "BCYZ") &&
    (forall i | 0 <= i < len :: f.linkIds[i] in ids)
  }

  lemma {:induction false} LeavesShaped(ions: string, breakId: int, included: seq<int>, total: Composition, ids: set<int>, kinds: set<char>)
    requires breakId in ids
    requires forall i | 0 <= i < |ions| :: ions[i] in kinds && ions[i] in "BCYZ"
    ensures forall f | f in Leaves(ions, breakId, included, total) :: Shaped(f, 1, ids, kinds) && Distinct(f.linkIds)
  {
    var r := Leaves(ions, breakId, included, total);
    forall f | f in r ensures Shaped(f, 1, ids, kinds) && Distinct(f.linkIds) {
      var i :| 0 <= i < |r| && r[i] == f;
      assert f.kind == [ions[i]];
    }
  }

  lemma {:induction false} ExtendedAllShaped(fs: seq<Fragment>, ions: string, breakId: int, len: nat, ids: set<int>, ids': set<int>, kinds: set<char>)
    requires forall f | f in fs :: Shaped(f, len, ids, kinds)
    requires ids <= ids' && breakId in ids'
    requires forall i | 0 <= i < |ions| :: ions[i] in kinds && ions[i] in "BCYZ"
    ensures forall f | f in ExtendedAll(fs, ions, breakId) :: Shaped(f, len + 1, ids', kinds)
    decreases |ions|
  {
    if |ions| > 0 {
      var e := Extended(fs, ions[0], breakId);
      forall f | f in e ensures Shaped(f, len + 1, ids', kinds) {
        var i :| 0 <= i < |e| && e[i] == f;
        assert fs[i] in fs;
      }
      ExtendedAllShaped(fs, ions[1..], breakId, len, ids, ids', kinds);
    }
  }

  lemma {:induction false} ExtendedAllDistinct(fs: seq<Fragment>, ions: string, breakId: int, ids: set<int>)
    requires forall f | f in fs :: Distinct(f.linkIds) && forall i | 0 <= i < |f.linkIds| :: f.linkIds[i] in ids
    requires breakId !in ids
    ensures forall f | f in ExtendedAll(fs, ions, breakId) :: Distinct(f.linkIds)
    decreases |ions|
  {
    if |ions| > 0 {
      var e := Extended(fs, ions[0], breakId);
      forall f | f in e ensures Distinct(f.linkIds) {
        var i :| 0 <= i < |e| && e[i] == f;
        var g := fs[i];
        assert g in fs;
        assert f.linkIds == g.linkIds + [breakId];
        forall a, b | 0 <= a < b < |f.linkIds| ensures f.linkIds[a] != f.linkIds[b] {
          if b == |g.linkIds| {
            assert f.linkIds[a] == g.linkIds[a];
            assert g.linkIds[a] in ids;
          }
        }
      }
      ExtendedAllDistinct(fs, ions[1..], breakId, ids);
    }
  }

  /** Breaking link `k` takes its id out of the breakable ones and adds none; ids stay injective. */
  lemma BreakableAfterBreak(g: Graph, k: nat, visited: set<int>)
    requires k in g.links && g.links[k].attached && g.links[k].id !in visited
    ensures var links := BreakLink(g, k, true).links;
      BreakableIds(links, visited) <= BreakableIds(g.links, visited) &&
      g.links[k].id in BreakableIds(g.links, visited) &&
      (InjectiveIds(g.links) ==> InjectiveIds(links) && g.links[k].id !in BreakableIds(links, visited))
  {
    var links := BreakLink(g, k, true).links;
    forall x | x in BreakableIds(links, visited) ensures x in BreakableIds(g.links, visited) {
      var k' :| k' in links && links[k'].attached && links[k'].id !in visited && links[k'].id == x;
      assert g.links[k'] == links[k'];
    }
    if InjectiveIds(g.links) {
      forall a, b | a in links && b in links && links[a].id == links[b].id ensures a == b {
        assert links[a].id == g.links[a].id && links[b].id == g.links[b].id;
      }
      forall k' | k' in links && links[k'].attached ensures links[k'].id != g.links[k].id {
        assert links[k'].id == g.links[k'].id;
      }
    }
  }

  /**
   * Every fragment records as many ion letters and broken links as
   * cleavages were asked for; each letter is a glycosidic ion kind that was
   * requested and each link was in place and not excluded by `visited`;
   * when link ids are unique, no fragment breaks the same link twice.
   */
  lemma {:induction false} BreakLinksShaped(g: Graph, from: NodeRef, n: nat, kinds: set<char>, visited: set<int>)
    ensures forall f | f in BreakLinksOf(g, from, n, kinds, visited).fragments ::
      Shaped(f, Cleavages(n), BreakableIds(g.links, visited), kinds) &&
      (InjectiveIds(g.links) ==> Distinct(f.linkIds))
    decreases n, 1, 0
  {
    BreakEachShaped(g, LinksFrom(g, from), n - 1, kinds, visited);
  }

  lemma {:induction false} BreakEachShaped(g: Graph, ks: seq<nat>, m: int, kinds: set<char>, visited: set<int>)
    requires m >= -1
    ensures forall f | f in BreakEach(g, ks, m, kinds, visited).fragments ::
      Shaped(f, Cleavages(m + 1), BreakableIds(g.links, visited), kinds) &&
      (InjectiveIds(g.links) ==> Distinct(f.linkIds))
    decreases m + 1, 0, |ks|
  {
    if |ks| > 0 {
      BreakOneShaped(g, ks[0], m, kinds, visited);
      var one := BreakOne(g, ks[0], m, kinds, visited);
      BreakEachShaped(one.graph, ks[1..], m, kinds, visited);
    }
  }

  lemma {:induction false} BreakOneShaped(g: Graph, k: nat, m: int, kinds: set<char>, visited: set<int>)
    requires m >= -1
    ensures forall f | f in BreakOne(g, k, m, kinds, visited).fragments ::
      Shaped(f, Cleavages(m + 1), BreakableIds(g.links, visited), kinds) &&
      (InjectiveIds(g.links) ==> Distinct(f.linkIds))
    decreases m + 1, 0, 0
  {
    if k in g.links && g.links[k].id !in visited && g.links[k].attached {
      var l := g.links[k];
      var g1 := BreakLink(g, k, true);
      var ids := BreakableIds(g.links, visited);
      var ids1 := BreakableIds(g1.links, visited);
      BreakableAfterBreak(g, k, visited);
      SidesChosen(kinds);
      if m > 0 {
        BreakLinksShaped(g1, l.parent, m, kinds, visited);
        var p := BreakLinksOf(g1, l.parent, m, kinds, visited);
        BreakLinksShaped(p.graph, l.child, m, kinds, visited);
        var c := BreakLinksOf(p.graph, l.child, m, kinds, visited);
        ExtendedAllShaped(p.fragments, ParentSide(kinds), l.id, m, ids1, ids, kinds);
        ExtendedAllShaped(c.fragments, ChildSide(kinds), l.id, m, ids1, ids, kinds);
        if InjectiveIds(g.links) {
          ExtendedAllDistinct(p.fragments, ParentSide(kinds), l.id, ids1);
          ExtendedAllDistinct(c.fragments, ChildSide(kinds), l.id, ids1);
        }
      } else {
        var pn := Side(g1, l.parent);
        var cn := Side(g1, l.child);
        LeavesShaped(ParentSide(kinds), l.id, IdList(g1, pn), TreeComposition(g1, pn), ids, kinds);
        LeavesShaped(ChildSide(kinds), l.id, IdList(g1, cn), TreeComposition(g1, cn), ids, kinds);
      }
    }
  }

  /** How many of the handles `ks` name a link that the loop body does not skip. */
  function CountBreakable(links: map<nat, Link>, ks: seq<nat>, visited: set<int>): nat {
    if |ks| == 0 then 0
    else (if ks[0] in links && links[ks[0]].id !in visited && links[ks[0]].attached then 1 else 0) +
         CountBreakable(links, ks[1..], visited)
  }

  /**
   * With no further cleavage to make, every link that is not skipped yields
   * one fragment per requested Y/Z ion and one per requested B/C ion.
   */
  lemma {:induction false} SingleCleavageCount(g: Graph, ks: seq<nat>, m: int, kinds: set<char>, visited: set<int>)
    requires -1 <= m <= 0
    ensures |BreakEach(g, ks, m, kinds, visited).fragments| ==
      CountBreakable(g.links, ks, visited) * (|ParentSide(kinds)| + |ChildSide(kinds)|)
    decreases |ks|
  {
    if |ks| > 0 {
      var w := |ParentSide(kinds)| + |ChildSide(kinds)|;
      var one := BreakOne(g, ks[0], m, kinds, visited);
      var b := if ks[0] in g.links && g.links[ks[0]].id !in visited && g.links[ks[0]].attached then 1 else 0;
      SingleBreakCount(g, ks[0], m, kinds, visited);
      assert |one.fragments| == b * w;
      SingleCleavageCount(one.graph, ks[1..], m, kinds, visited);
      var c := CountBreakable(g.links, ks[1..], visited);
      assert |BreakEach(g, ks, m, kinds, visited).fragments| == b * w + c * w;
      assert b * w + c * w == (b + c) * w;
    }
  }

  lemma SingleBreakCount(g: Graph, k: nat, m: int, kinds: set<char>, visited: set<int>)
    requires -1 <= m <= 0
    ensures |BreakOne(g, k, m, kinds, visited).fragments| ==
      if k in g.links && g.links[k].id !in visited && g.links[k].attached then |ParentSide(kinds)| + |ChildSide(kinds)| else 0
  {
  }

  /**
   * A `DisjointTrees` result of `break_links_subtrees`: the residue ids of
   * the two sides, the size of each side's copy, and the links broken.
   */
  datatype Split = Split(parentInclude: seq<int>, parentOrder: nat, childInclude: seq<int>, childOrder: nat, linkIds: seq<int>)

  /** The splits an enumeration yields, and the graph it leaves behind. */
  datatype Splits = Splits(splits: seq<Split>, graph: Graph)

  /** `link_ids + [break_id]` for every split of an inner enumeration. */
  function WithBreak(ss: seq<Split>, breakId: int): (r: seq<Split>)
    ensures |r| == |ss|
    ensures forall i | 0 <= i < |r| :: r[i] == ss[i].(linkIds := ss[i].linkIds + [breakId])
  {
    if |ss| == 0 then [] else [ss[0].(linkIds := ss[0].linkIds + [breakId])] + WithBreak(ss[1..], breakId)
  }

  /**
   * `break_links_subtrees(n_links, min_size)` on the structure rooted at
   * `from`. Unlike `break_links`, no link is skipped: every link `iterlinks`
   * yields is broken and applied again.
   */
  function SubtreesOf(g: Graph, from: NodeRef, n: nat, minSize: int): (r: Splits)
    ensures r.graph.links.Keys == g.links.Keys
    decreases n, 1, 0
  {
    SubtreesEach(g, LinksFrom(g, from), n - 1, minSize)
  }

  function SubtreesEach(g: Graph, ks: seq<nat>, m: int, minSize: int): (r: Splits)
    requires m >= -1
    ensures r.graph.links.Keys == g.links.Keys
    decreases m + 1, 0, |ks|
  {
    if |ks| == 0 then Splits([], g)
    else
      var one := SubtreesOne(g, ks[0], m, minSize);
      var rest := SubtreesEach(one.graph, ks[1..], m, minSize);
      Splits(one.splits + rest.splits, rest.graph)
  }

  /**
   * One link: the split is yielded when either side has more than
   * `min_size` residues; a side with more than `min_size` residues is split
   * further while cleavages remain. The child side is measured after the
   * parent side's enumeration has run.
   */
  function SubtreesOne(g: Graph, k: nat, m: int, minSize: int): (r: Splits)
    requires m >= -1
    ensures r.graph.links.Keys == g.links.Keys
    decreases m + 1, 0, 0
  {
    if k !in g.links then Splits([], g)
    else
      var l := g.links[k];
      var g1 := BreakLink(g, k, true);
      var (pn, cn) := (Side(g1, l.parent), Side(g1, l.child));
      var here := if |pn| > minSize || |cn| > minSize then [Split(IdList(g1, pn), |pn|, IdList(g1, cn), |cn|, [l.id])] else [];
      var p := if m > 0 && |pn| > minSize then SubtreesOf(g1, l.parent, m, minSize) else Splits([], g1);
      var c := if m > 0 && |Side(p.graph, l.child)| > minSize then SubtreesOf(p.graph, l.child, m, minSize) else Splits([], p.graph);
      Splits(here + WithBreak(p.splits, l.id) + WithBreak(c.splits, l.id), ApplyLink(c.graph, k))
  }

  /** What `iterlinks` yields from a graph whose filing is in order are links in place. */
  lemma LinksFromAttached(g: Graph, from: NodeRef)
    requires Placed(g)
    ensures forall i | 0 <= i < |LinksFrom(g, from)| :: LinksFrom(g, from)[i] in g.links && g.links[LinksFrom(g, from)[i]].attached
  {
    if from.ResidueNode? {
      var s := set h | h in g.links && g.links[h].attached;
      IterLinksWithin(g, Side(g, from), s);
    }
  }

  /**
   * Every split names between one and `n` broken links, the last one the
   * link broken first, has a side larger than `min_size`, and records each
   * side's size as the length of its id list.
   */
  lemma {:induction false} SubtreesShaped(g: Graph, from: NodeRef, n: nat, minSize: int)
    ensures forall s | s in SubtreesOf(g, from, n, minSize).splits ::
      1 <= |s.linkIds| <= Cleavages(n) && (s.parentOrder > minSize || s.childOrder > minSize) &&
      |s.parentInclude| == s.parentOrder && |s.childInclude| == s.childOrder
    decreases n, 1, 0
  {
    SubtreesEachShaped(g, LinksFrom(g, from), n - 1, minSize);
  }

  lemma {:induction false} SubtreesEachShaped(g: Graph, ks: seq<nat>, m: int, minSize: int)
    requires m >= -1
    ensures forall s | s in SubtreesEach(g, ks, m, minSize).splits ::
      1 <= |s.linkIds| <= Cleavages(m + 1) && (s.parentOrder > minSize || s.childOrder > minSize) &&
      |s.parentInclude| == s.parentOrder && |s.childInclude| == s.childOrder
    decreases m + 1, 0, |ks|
  {
    if |ks| > 0 {
      SubtreesOneShaped(g, ks[0], m, minSize);
      var one := SubtreesOne(g, ks[0], m, minSize);
      SubtreesEachShaped(one.graph, ks[1..], m, minSize);
    }
  }

  lemma {:induction false} WithBreakShaped(ss: seq<Split>, breakId: int, len: nat, minSize: int)
    requires forall s | s in ss ::
      1 <= |s.linkIds| <= len && (s.parentOrder > minSize || s.childOrder > minSize) &&
      |s.parentInclude| == s.parentOrder && |s.childInclude| == s.childOrder
    ensures forall s | s in WithBreak(ss, breakId) ::
      1 <= |s.linkIds| <= len + 1 && (s.parentOrder > minSize || s.childOrder > minSize) &&
      |s.parentInclude| == s.parentOrder && |s.childInclude| == s.childOrder
  {
    var r := WithBreak(ss, breakId);
    forall s | s in r
      ensures 1 <= |s.linkIds| <= len + 1 && (s.parentOrder > minSize || s.childOrder > minSize) &&
        |s.parentInclude| == s.parentOrder && |s.childInclude| == s.childOrder
    {
      var i :| 0 <= i < |r| && r[i] == s;
      assert ss[i] in ss;
    }
  }

  lemma {:induction false} SubtreesOneShaped(g: Graph, k: nat, m: int, minSize: int)
    requires m >= -1
    ensures forall s | s in SubtreesOne(g, k, m, minSize).splits ::
      1 <= |s.linkIds| <= Cleavages(m + 1) && (s.parentOrder > minSize || s.childOrder > minSize) &&
      |s.parentInclude| == s.parentOrder && |s.childInclude| == s.childOrder
    decreases m + 1, 0, 0
  {
    if k in g.links {
      var l := g.links[k];
      var g1 := BreakLink(g, k, true);
      var pn := Side(g1, l.parent);
      if m > 0 && |pn| > minSize {
        SubtreesShaped(g1, l.parent, m, minSize);
        WithBreakShaped(SubtreesOf(g1, l.parent, m, minSize).splits, l.id, m, minSize);
      }
      var p := if m > 0 && |pn| > minSize then SubtreesOf(g1, l.parent, m, minSize) else Splits([], g1);
      if m > 0 && |Side(p.graph, l.child)| > minSize {
        SubtreesShaped(p.graph, l.child, m, minSize);
        WithBreakShaped(SubtreesOf(p.graph, l.child, m, minSize).splits, l.id, m, minSize);
      }
    }
  }

  /**
   * On a tidy graph whose filing is in order, `break_links_subtrees` gives
   * back exactly the graph it was handed.
   */
  lemma {:induction false} SubtreesRestore(g: Graph, from: NodeRef, n: nat, minSize: int)
    requires Tidy(g) && Placed(g)
    ensures SubtreesOf(g, from, n, minSize).graph == g
    decreases n, 1, 0
  {
    LinksFromAttached(g, from);
    SubtreesEachRestore(g, LinksFrom(g, from), n - 1, minSize);
  }

  lemma {:induction false} SubtreesEachRestore(g: Graph, ks: seq<nat>, m: int, minSize: int)
    requires m >= -1 && Tidy(g) && Placed(g)
    requires forall i | 0 <= i < |ks| :: ks[i] in g.links && g.links[ks[i]].attached
    ensures SubtreesEach(g, ks, m, minSize).graph == g
    decreases m + 1, 0, |ks|
  {
    if |ks| > 0 {
      SubtreesOneRestore(g, ks[0], m, minSize);
      assert forall i | 0 <= i < |ks[1..]| :: ks[1..][i] == ks[i + 1];
      SubtreesEachRestore(g, ks[1..], m, minSize);
    }
  }

  lemma {:induction false} SubtreesOneRestore(g: Graph, k: nat, m: int, minSize: int)
    requires m >= -1 && Tidy(g) && Placed(g)
    requires k in g.links && g.links[k].attached
    ensures SubtreesOne(g, k, m, minSize).graph == g
    decreases m + 1, 0, 0
  {
    var l := g.links[k];
    var g1 := BreakLink(g, k, true);
    TidyAfterBreak(g, k);
    PlacedAfterBreak(g, k);
    SoleSettled(g, k);
    BreakThenApply(g, k);
    var pn := Side(g1, l.parent);
    if m > 0 && |pn| > minSize {
      SubtreesRestore(g1, l.parent, m, minSize);
    }
    if m > 0 && |Side(g1, l.child)| > minSize {
      SubtreesRestore(g1, l.child, m, minSize);
    }
  }

  /** One step of the loop over `ks`, stated for a suffix. */
  lemma BreakEachUnfold(g: Graph, ks: seq<nat>, i: nat, m: int, kinds: set<char>, visited: set<int>)
    requires m >= -1 && i < |ks|
    ensures var one := BreakOne(g, ks[i], m, kinds, visited);
      var rest := BreakEach(one.graph, ks[i + 1..], m, kinds, visited);
      BreakEach(g, ks[i..], m, kinds, visited) == Enumeration(one.fragments + rest.fragments, rest.graph)
  {
    assert ks[i..][0] == ks[i] && ks[i..][1..] == ks[i + 1..];
  }

  /**
   * The loop of `break_links` keeps its invariant: the fragments so far
   * followed by what the remaining links yield are the whole enumeration.
   */
  lemma BreakEachStep(g: Graph, ks: seq<nat>, i: nat, m: int, kinds: set<char>, visited: set<int>,
                      fs: seq<Fragment>, more: seq<Fragment>, g': Graph, spec: Enumeration)
    requires m >= -1 && i < |ks|
    requires fs + BreakEach(g, ks[i..], m, kinds, visited).fragments == spec.fragments
    requires BreakEach(g, ks[i..], m, kinds, visited).graph == spec.graph
    requires Enumeration(more, g') == BreakOne(g, ks[i], m, kinds, visited)
    ensures (fs + more) + BreakEach(g', ks[i + 1..], m, kinds, visited).fragments == spec.fragments
    ensures BreakEach(g', ks[i + 1..], m, kinds, visited).graph == spec.graph
  {
    BreakEachUnfold(g, ks, i, m, kinds, visited);
    var rest := BreakEach(g', ks[i + 1..], m, kinds, visited);
    assert fs + (more + rest.fragments) == (fs + more) + rest.fragments;
  }

  /** One step of the loop over the ion kinds, stated for a suffix. */
  lemma ExtendedAllUnfold(fs: seq<Fragment>, ions: string, i: nat, breakId: int)
    requires i < |ions|
    ensures ExtendedAll(fs, ions[i..], breakId) == Extended(fs, ions[i], breakId) + ExtendedAll(fs, ions[i + 1..], breakId)
  {
    assert ions[i..][0] == ions[i] && ions[i..][1..] == ions[i + 1..];
  }

  lemma SubtreesEachUnfold(g: Graph, ks: seq<nat>, i: nat, m: int, minSize: int)
    requires m >= -1 && i < |ks|
    ensures var one := SubtreesOne(g, ks[i], m, minSize);
      var rest := SubtreesEach(one.graph, ks[i + 1..], m, minSize);
      SubtreesEach(g, ks[i..], m, minSize) == Splits(one.splits + rest.splits, rest.graph)
  {
    assert ks[i..][0] == ks[i] && ks[i..][1..] == ks[i + 1..];
  }

  /** The loop of `break_links_subtrees` keeps its invariant, as `BreakEachStep` says for `break_links`. */
  lemma SubtreesEachStep(g: Graph, ks: seq<nat>, i: nat, m: int, minSize: int,
                         ss: seq<Split>, more: seq<Split>, g': Graph, spec: Splits)
    requires m >= -1 && i < |ks|
    requires ss + SubtreesEach(g, ks[i..], m, minSize).splits == spec.splits
    requires SubtreesEach(g, ks[i..], m, minSize).graph == spec.graph
    requires Splits(more, g') == SubtreesOne(g, ks[i], m, minSize)
    ensures (ss + more) + SubtreesEach(g', ks[i + 1..], m, minSize).splits == spec.splits
    ensures SubtreesEach(g', ks[i + 1..], m, minSize).graph == spec.graph
  {
    SubtreesEachUnfold(g, ks, i, m, minSize);
    var rest := SubtreesEach(g', ks[i + 1..], m, minSize);
    assert ss + (more + rest.splits) == (ss + more) + rest.splits;
  }
}
