/**
 * `Glycan.fragments`: `break_links(i)` for every cleavage count `i` from
 * `min_cleavages` to `max_cleavages`, each fragment named by
 * `name_fragment` or, when naming raises, by the fragment's own text.
 */
module FragmentSeries {
  import opened Wrappers
  import opened Compositions
  import opened Graphs
  import opened Fragments
  import opened FragmentNames
  import opened Numerals

  /** `break_links` raises `ValueError` for a negative cleavage count. */
  datatype FragmentError = NegativeCleavages(n: int)

  /** A `Fragment` with its `name`; `None` stands for the `str(frag)` fallback. */
  datatype NamedFragment = NamedFragment(fragment: Fragment, name: Option<string>)

  function Named(g: Graph, li: seq<nat>, lengths: map<char, int>, f: Fragment): NamedFragment {
    match NameFragmentOf(g, li, lengths, f)
    case Ok(s) => NamedFragment(f, Some(s))
    case Err(_) => NamedFragment(f, None)
  }

  function NamedAll(g: Graph, li: seq<nat>, lengths: map<char, int>, fs: seq<Fragment>): (r: seq<NamedFragment>)
    ensures |r| == |fs|
    ensures forall i | 0 <= i < |r| :: r[i] == Named(g, li, lengths, fs[i])
  {
    if |fs| == 0 then [] else [Named(g, li, lengths, fs[0])] + NamedAll(g, li, lengths, fs[1..])
  }

  /** The rounds `lo..hi` of `for i in range(min_cleavages, max_cleavages + 1)`, each on the graph the last one left. */
  function Rounds(g: Graph, from: NodeRef, lo: nat, hi: int, kinds: set<char>, visited: set<int>): (r: Enumeration)
    ensures r.graph.links == g.links
    decreases hi - lo + 1
  {
    if lo > hi then Enumeration([], g)
    else
      var e := BreakLinksOf(g, from, lo, kinds, visited);
      var rest := Rounds(e.graph, from, lo + 1, hi, kinds, visited);
      Enumeration(e.fragments + rest.fragments, rest.graph)
  }

  /** `fragments(kind, max_cleavages, min_cleavages, visited)`, names given by the glycan's own index and labels. */
  function FragmentsOf(g: Graph, from: NodeRef, li: seq<nat>, lengths: map<char, int>, kinds: set<char>, minC: int, maxC: int, visited: set<int>): Result<seq<NamedFragment>, FragmentError> {
    if minC > maxC then Ok([])
    else if minC < 0 then Err(NegativeCleavages(minC))
    else Ok(NamedAll(g, li, lengths, Rounds(g, from, minC, maxC, kinds, visited).fragments))
  }

  /** The graph that fragmenting in place leaves behind. */
  function GraphAfter(g: Graph, from: NodeRef, kinds: set<char>, minC: int, maxC: int, visited: set<int>): Graph {
    if 0 <= minC <= maxC then Rounds(g, from, minC, maxC, kinds, visited).graph else g
  }

  // ---------------------------------------------------------------------------
  // Properties

  lemma {:induction false} NamedAllConcat(g: Graph, li: seq<nat>, lengths: map<char, int>, a: seq<Fragment>, b: seq<Fragment>)
    ensures NamedAll(g, li, lengths, a + b) == NamedAll(g, li, lengths, a) + NamedAll(g, li, lengths, b)
  {
  }

  /** The names of shaped fragments read only the links of the graph. */
  lemma NamedAllSameLinks(g1: Graph, g2: Graph, li: seq<nat>, lengths: map<char, int>, fs: seq<Fragment>, ids: set<int>, kinds: set<char>)
    requires g1.links == g2.links
    requires forall f | f in fs :: Shaped(f, |f.kind|, ids, kinds)
    ensures NamedAll(g1, li, lengths, fs) == NamedAll(g2, li, lengths, fs)
  {
    forall i | 0 <= i < |fs| ensures Named(g1, li, lengths, fs[i]) == Named(g2, li, lengths, fs[i]) {
      assert fs[i] in fs;
      ShapedGlycosidic(fs[i], ids, kinds);
      NameSameLinks(g1, g2, li, lengths, fs[i]);
    }
  }

  lemma RoundsUnfold(g: Graph, from: NodeRef, lo: nat, hi: int, kinds: set<char>, visited: set<int>)
    requires lo <= hi
    ensures var e := BreakLinksOf(g, from, lo, kinds, visited);
      var rest := Rounds(e.graph, from, lo + 1, hi, kinds, visited);
      Rounds(g, from, lo, hi, kinds, visited) == Enumeration(e.fragments + rest.fragments, rest.graph)
  {
  }

  /** One round of the `fragments` loop, stated for the rounds still to come. */
  lemma RoundsStep(g: Graph, from: NodeRef, i: nat, hi: int, kinds: set<char>, visited: set<int>,
                   fs: seq<Fragment>, more: seq<Fragment>, g': Graph, spec: Enumeration)
    requires i <= hi
    requires fs + Rounds(g, from, i, hi, kinds, visited).fragments == spec.fragments
    requires Rounds(g, from, i, hi, kinds, visited).graph == spec.graph
    requires Enumeration(more, g') == BreakLinksOf(g, from, i, kinds, visited)
    ensures (fs + more) + Rounds(g', from, i + 1, hi, kinds, visited).fragments == spec.fragments
    ensures Rounds(g', from, i + 1, hi, kinds, visited).graph == spec.graph
  {
    RoundsUnfold(g, from, i, hi, kinds, visited);
    var rest := Rounds(g', from, i + 1, hi, kinds, visited);
    assert fs + (more + rest.fragments) == (fs + more) + rest.fragments;
  }

  /**
   * On a tidy glycan every round starts from the intact glycan and asks for
   * every requested ion type: the rounds are the separate `break_links(i, kind)`
   * enumerations one after the other.
   */
  lemma RoundsOnIntactGlycan(g: Graph, from: NodeRef, lo: nat, hi: int, kinds: set<char>, visited: set<int>)
    requires Tidy(g) && lo <= hi
    ensures Rounds(g, from, lo, hi, kinds, visited).fragments ==
      BreakLinksOf(g, from, lo, kinds, visited).fragments + Rounds(g, from, lo + 1, hi, kinds, visited).fragments
  {
    BreakLinksRestores(g, from, lo, kinds, visited);
  }

  /** Fragmenting a tidy glycan in place gives it back exactly as it was. */
  lemma {:induction false} RoundsRestore(g: Graph, from: NodeRef, lo: nat, hi: int, kinds: set<char>, visited: set<int>)
    requires Tidy(g)
    ensures Rounds(g, from, lo, hi, kinds, visited).graph == g
    decreases hi - lo + 1
  {
    if lo <= hi {
      BreakLinksRestores(g, from, lo, kinds, visited);
      RoundsRestore(g, from, lo + 1, hi, kinds, visited);
    }
  }

  lemma FragmentsRestore(g: Graph, from: NodeRef, kinds: set<char>, minC: int, maxC: int, visited: set<int>)
    requires Tidy(g)
    ensures GraphAfter(g, from, kinds, minC, maxC, visited) == g
  {
    if 0 <= minC <= maxC {
      RoundsRestore(g, from, minC, maxC, kinds, visited);
    }
  }

  /**
   * Every fragment breaks between `min_cleavages` (at least one) and
   * `max_cleavages` links that are attached and not visited, with one
   * requested ion letter per link.
   */
  lemma {:induction false} RoundsShaped(g: Graph, from: NodeRef, lo: nat, hi: int, kinds: set<char>, visited: set<int>)
    ensures forall f | f in Rounds(g, from, lo, hi, kinds, visited).fragments ::
      Cleavages(lo) <= |f.kind| <= Cleavages(hi) && Shaped(f, |f.kind|, BreakableIds(g.links, visited), kinds)
    decreases hi - lo + 1
  {
    if lo <= hi {
      var e := BreakLinksOf(g, from, lo, kinds, visited);
      BreakLinksShaped(g, from, lo, kinds, visited);
      RoundsShaped(e.graph, from, lo + 1, hi, kinds, visited);
      var rest := Rounds(e.graph, from, lo + 1, hi, kinds, visited);
      forall f | f in e.fragments + rest.fragments
        ensures Cleavages(lo) <= |f.kind| <= Cleavages(hi) && Shaped(f, |f.kind|, BreakableIds(g.links, visited), kinds)
      {
        if f in e.fragments {
          assert Shaped(f, Cleavages(lo), BreakableIds(g.links, visited), kinds);
        } else {
          assert Shaped(f, |f.kind|, BreakableIds(e.graph.links, visited), kinds);
        }
      }
    }
  }

  /** A shaped fragment's letters are ion letters: it is named glycosidic-only. */
  lemma ShapedGlycosidic(f: Fragment, ids: set<int>, kinds: set<char>)
    requires Shaped(f, |f.kind|, ids, kinds)
    ensures GlycosidicFragment(f)
  {
    forall k | 0 <= k < |f.kind| ensures !IsDigit(f.kind[k]) && !IsSpace(f.kind[k]) {
      assert f.kind[k] in "BCYZ";
    }
  }

  /**
   * A single round of single cleavages yields one fragment per requested
   * Y/Z ion and one per requested B/C ion for every breakable link.
   */
  lemma SingleRoundCount(g: Graph, from: NodeRef, n: nat, kinds: set<char>, visited: set<int>)
    requires n <= 1
    ensures |Rounds(g, from, n, n, kinds, visited).fragments| ==
      CountBreakable(g.links, LinksFrom(g, from), visited) * (|ParentSide(kinds)| + |ChildSide(kinds)|)
  {
    SingleCleavageCount(g, LinksFrom(g, from), n - 1, kinds, visited);
    var e := BreakLinksOf(g, from, n, kinds, visited);
    assert Rounds(e.graph, from, n + 1, n, kinds, visited).fragments == [];
    assert e.fragments + [] == e.fragments;
  }

  // ---------------------------------------------------------------------------
  // The loop variable `kind`

  /** `set(s)` for a string. */
  function KindSet(s: string): set<char> {
    set i | 0 <= i < |s| :: s[i]
  }

  /**
   * The rounds as the code is written: the inner loop's target `kind` is
   * the parameter `kind`, so every round after one that yielded a fragment
   * asks for the ion letters of the last fragment yielded.
   */
  function RoundsAsWritten(g: Graph, from: NodeRef, lo: nat, hi: int, kinds: set<char>, visited: set<int>): (r: Enumeration)
    decreases hi - lo + 1
  {
    if lo > hi then Enumeration([], g)
    else
      var e := BreakLinksOf(g, from, lo, kinds, visited);
      var next := if |e.fragments| > 0 then KindSet(e.fragments[|e.fragments| - 1].kind) else kinds;
      var rest := RoundsAsWritten(e.graph, from, lo + 1, hi, next, visited);
      Enumeration(e.fragments + rest.fragments, rest.graph)
  }

  /** With no further cleavage to make, the last fragment of an enumeration is a non-reducing-end ion. */
  lemma {:induction false} LastIsChildSide(g: Graph, ks: seq<nat>, m: int, kinds: set<char>, visited: set<int>)
    requires -1 <= m <= 0 && |ChildSide(kinds)| > 0
    ensures var fs := BreakEach(g, ks, m, kinds, visited).fragments;
      |fs| > 0 ==> fs[|fs| - 1].kind == [ChildSide(kinds)[|ChildSide(kinds)| - 1]]
    decreases |ks|
  {
    if |ks| > 0 {
      var one := BreakOne(g, ks[0], m, kinds, visited);
      var rest := BreakEach(one.graph, ks[1..], m, kinds, visited);
      BreakEachCons(g, ks, m, kinds, visited);
      LastIsChildSide(one.graph, ks[1..], m, kinds, visited);
      LastOfOne(g, ks[0], m, kinds, visited);
      LastOfJoin(one.fragments, rest.fragments, [ChildSide(kinds)[|ChildSide(kinds)| - 1]]);
    }
  }

  /** The loop over the links: the first link's fragments, then the rest's. */
  lemma BreakEachCons(g: Graph, ks: seq<nat>, m: int, kinds: set<char>, visited: set<int>)
    requires m >= -1 && |ks| > 0
    ensures var one := BreakOne(g, ks[0], m, kinds, visited);
      BreakEach(g, ks, m, kinds, visited).fragments == one.fragments + BreakEach(one.graph, ks[1..], m, kinds, visited).fragments
  {
  }

  /** The last of two joined lists is the last of the second, or of the first when the second is empty. */
  lemma LastOfJoin(a: seq<Fragment>, b: seq<Fragment>, kind: string)
    requires |a| > 0 ==> a[|a| - 1].kind == kind
    requires |b| > 0 ==> b[|b| - 1].kind == kind
    ensures |a + b| > 0 ==> (a + b)[|a + b| - 1].kind == kind
  {
    if |b| > 0 {
      assert (a + b)[|a + b| - 1] == b[|b| - 1];
    } else if |a| > 0 {
      assert (a + b)[|a + b| - 1] == a[|a| - 1];
    }
  }

  lemma LastOfOne(g: Graph, k: nat, m: int, kinds: set<char>, visited: set<int>)
    requires -1 <= m <= 0 && |ChildSide(kinds)| > 0
    ensures var fs := BreakOne(g, k, m, kinds, visited).fragments;
      |fs| > 0 ==> fs[|fs| - 1].kind == [ChildSide(kinds)[|ChildSide(kinds)| - 1]]
  {
    if k in g.links && g.links[k].id !in visited && g.links[k].attached {
      var l := g.links[k];
      var g1 := BreakLink(g, k, true);
      var cs := ChildSide(kinds);
      var cn := Side(g1, l.child);
      var front := Leaves(ParentSide(kinds), l.id, IdList(g1, Side(g1, l.parent)), TreeComposition(g1, Side(g1, l.parent)));
      assert BreakOne(g, k, m, kinds, visited).fragments == front + Leaves(cs, l.id, IdList(g1, cn), TreeComposition(g1, cn));
      LastOfLeaves(front, cs, l.id, IdList(g1, cn), TreeComposition(g1, cn));
    }
  }

  /** Leaves for the ions `cs` put last end with the last ion of `cs`. */
  lemma LastOfLeaves(front: seq<Fragment>, cs: string, breakId: int, included: seq<int>, total: Composition)
    requires |cs| > 0
    ensures var fs := front + Leaves(cs, breakId, included, total); fs[|fs| - 1].kind == [cs[|cs| - 1]]
  {
    var leaves := Leaves(cs, breakId, included, total);
    assert (front + leaves)[|front + leaves| - 1] == leaves[|cs| - 1];
  }

  /**
   * `fragments(kind=('B', 'Y'), min_cleavages=0, max_cleavages=1)` on a
   * glycan with `c` breakable links: as written, the second round asks only
   * for B ions, 3c fragments in all where both rounds should give 2c each.
   */
  lemma FragmentsAsWrittenDropsY(g: Graph, from: NodeRef, visited: set<int>)
    requires Tidy(g)
    ensures var c := CountBreakable(g.links, LinksFrom(g, from), visited);
      |RoundsAsWritten(g, from, 0, 1, {'B', 'Y'}, visited).fragments| == 3 * c &&
      |Rounds(g, from, 0, 1, {'B', 'Y'}, visited).fragments| == 4 * c
  {
    AsWrittenRoundsCount(g, from, visited);
    IntendedRoundsCount(g, from, visited);
  }

  /** Both rounds asked for B and Y: two fragments per breakable link in each. */
  lemma IntendedRoundsCount(g: Graph, from: NodeRef, visited: set<int>)
    requires Tidy(g)
    ensures |Rounds(g, from, 0, 1, {'B', 'Y'}, visited).fragments| == 4 * CountBreakable(g.links, LinksFrom(g, from), visited)
  {
    var c := CountBreakable(g.links, LinksFrom(g, from), visited);
    var asked: set<char> := {'B', 'Y'};
    assert ParentSide(asked) == "Y" && ChildSide(asked) == "B";
    assert |ParentSide(asked)| + |ChildSide(asked)| == 2;
    var e0, e1 := BreakLinksOf(g, from, 0, asked, visited), BreakLinksOf(g, from, 1, asked, visited);
    RoundCount(g, from, 0, asked, visited);
    RoundCount(g, from, 1, asked, visited);
    assert |e0.fragments| == 2 * c && |e1.fragments| == 2 * c;
    RoundsOnIntactGlycan(g, from, 0, 1, asked, visited);
    LastRounds(g, from, 1, asked, asked, visited);
    assert |e0.fragments + e1.fragments| == 2 * c + 2 * c;
  }

  /** As written, the first round asks for B and Y and the second only for B. */
  lemma AsWrittenRoundsCount(g: Graph, from: NodeRef, visited: set<int>)
    requires Tidy(g)
    ensures |RoundsAsWritten(g, from, 0, 1, {'B', 'Y'}, visited).fragments| == 3 * CountBreakable(g.links, LinksFrom(g, from), visited)
  {
    var c := CountBreakable(g.links, LinksFrom(g, from), visited);
    var asked: set<char> := {'B', 'Y'};
    var e0 := BreakLinksOf(g, from, 0, asked, visited);
    var next := if |e0.fragments| > 0 then KindSet(e0.fragments[|e0.fragments| - 1].kind) else asked;
    FirstRoundAsWritten(g, from, visited);
    SecondRoundAsWritten(g, from, next, visited, |e0.fragments|);
    BreakLinksRestores(g, from, 0, asked, visited);
    RoundsAsWrittenStep(g, from, 0, 1, asked, visited);
    var e1 := BreakLinksOf(g, from, 1, next, visited);
    LastRounds(g, from, 1, next, asked, visited);
    assert |e0.fragments + e1.fragments| == 2 * c + c;
  }

  /** The first round of B and Y: two fragments per breakable link, the last of them a B ion. */
  lemma FirstRoundAsWritten(g: Graph, from: NodeRef, visited: set<int>)
    ensures var e0 := BreakLinksOf(g, from, 0, {'B', 'Y'}, visited);
      |e0.fragments| == 2 * CountBreakable(g.links, LinksFrom(g, from), visited) &&
      (|e0.fragments| > 0 ==> KindSet(e0.fragments[|e0.fragments| - 1].kind) == {'B'})
  {
    var asked: set<char> := {'B', 'Y'};
    assert ParentSide(asked) == "Y" && ChildSide(asked) == "B";
    assert |ParentSide(asked)| + |ChildSide(asked)| == 2;
    RoundCount(g, from, 0, asked, visited);
    LastIsChildSide(g, LinksFrom(g, from), -1, asked, visited);
    assert KindSet("B") == {'B'} by { assert "B"[0] == 'B'; }
  }

  /** The second round as written: with only B asked for, one fragment per breakable link (none at all when there is none). */
  lemma SecondRoundAsWritten(g: Graph, from: NodeRef, next: set<char>, visited: set<int>, first: nat)
    requires first == 2 * CountBreakable(g.links, LinksFrom(g, from), visited)
    requires next == (if first > 0 then {'B'} else {'B', 'Y'})
    ensures |BreakLinksOf(g, from, 1, next, visited).fragments| == CountBreakable(g.links, LinksFrom(g, from), visited)
  {
    assert ParentSide({'B'}) == "" && ChildSide({'B'}) == "B";
    assert ParentSide({'B', 'Y'}) == "Y" && ChildSide({'B', 'Y'}) == "B";
    RoundCount(g, from, 1, next, visited);
  }

  /** A last round, taken alone: its fragments and nothing after them. */
  lemma LastRounds(g: Graph, from: NodeRef, n: nat, kinds: set<char>, kinds': set<char>, visited: set<int>)
    ensures RoundsAsWritten(g, from, n, n, kinds, visited).fragments == BreakLinksOf(g, from, n, kinds, visited).fragments
    ensures Rounds(g, from, n, n, kinds', visited).fragments == BreakLinksOf(g, from, n, kinds', visited).fragments
  {
    var e := BreakLinksOf(g, from, n, kinds, visited);
    var e' := BreakLinksOf(g, from, n, kinds', visited);
    assert RoundsAsWritten(e.graph, from, n + 1, n, KindSet([]), visited).fragments == [];
    assert e.fragments + [] == e.fragments && e'.fragments + [] == e'.fragments;
  }

  /** One round of the rounds as written, then the later rounds with the kinds that round leaves behind. */
  lemma RoundsAsWrittenStep(g: Graph, from: NodeRef, lo: nat, hi: int, kinds: set<char>, visited: set<int>)
    requires lo <= hi
    ensures var e := BreakLinksOf(g, from, lo, kinds, visited);
      var next := if |e.fragments| > 0 then KindSet(e.fragments[|e.fragments| - 1].kind) else kinds;
      RoundsAsWritten(g, from, lo, hi, kinds, visited).fragments ==
        e.fragments + RoundsAsWritten(e.graph, from, lo + 1, hi, next, visited).fragments
  {
  }

  /** A round of at most one cleavage yields, for every breakable link, one fragment per requested ion. */
  lemma RoundCount(g: Graph, from: NodeRef, n: nat, kinds: set<char>, visited: set<int>)
    requires n <= 1
    ensures |BreakLinksOf(g, from, n, kinds, visited).fragments| ==
      CountBreakable(g.links, LinksFrom(g, from), visited) * (|ParentSide(kinds)| + |ChildSide(kinds)|)
  {
    SingleCleavageCount(g, LinksFrom(g, from), n - 1, kinds, visited);
  }
}
