/**
 * The `Glycan` class of pygly2/structure/glycan.py: a root residue and the
 * structure reachable from it, with the traversal loops, `iterlinks`,
 * `reindex`, `label_branches`, `count_branches`, `order` and `get`.
 */
module Glycans {
  import opened Wrappers
  import opened MultiMaps
  import opened Compositions
  import opened Graphs
  import opened ResidueQueries
  import opened Traversals
  import opened BranchLabels
  import opened Fragments
  import opened FragmentNames
  import opened FragmentSeries
  import Base

  // ---------------------------------------------------------------------------
  // The Glycan object

  /** `get(ix)` finds no node with the id. */
  datatype GlycanError = NoSuchId(id: int)

  /** The traversed nodes with more than two entries in `links`. */
  function BranchPoints(g: Graph, nodes: seq<nat>): nat {
    if |nodes| == 0 then 0
    else (if Len(Table(g, LinksOf(ResidueNode(nodes[0])))) > 2 then 1 else 0) + BranchPoints(g, nodes[1..])
  }

  /**
   * A `Glycan`: a root residue and the arena of objects reachable from it,
   * plus the `index`/`link_index` lists and `branch_lengths` that
   * `reindex` maintains.
   */
  class Glycan {
    var graph: Graph
    var root: nat
    var index: seq<nat>
    var linkIndex: seq<nat>
    var branchLengths: map<char, int>

    /** `Glycan(root, index_method=None)` */
    constructor (graph: Graph, root: nat)
      ensures this.graph == graph && this.root == root
      ensures index == [] && linkIndex == [] && branchLengths == map[]
    {
      this.graph := graph;
      this.root := root;
      index := [];
      linkIndex := [];
      branchLengths := map[];
    }

    /** `iter(self)`: the depth-first traversal from the root. */
    function Nodes(): seq<nat>
      reads this
    {
      Traverse(graph, [root], {}, true)
    }

    /** `depth_first_traversal(from_node, visited)`: a stack, popped from its end. */
    method DepthFirstTraversal(from: nat, visited: set<int>) returns (order: seq<nat>)
      ensures order == Traverse(graph, [from], visited, true)
    {
      var ids := ResidueIds(graph);
      var stack := [from];
      var seen := visited;
      order := [];
      while |stack| > 0
        invariant order + Traverse(graph, stack, seen, true) == Traverse(graph, [from], visited, true)
        decreases |Unvisited(ids, seen)|, |stack|
      {
        TraverseStep(graph, stack, seen, true);
        var h := stack[|stack| - 1];
        stack := stack[..|stack| - 1];
        if h in ids && ids[h] !in seen {
          VisitShrinks(ids, h, seen);
          seen := seen + {ids[h]};
          order := order + [h];
          stack := stack + SortByOrder(graph, Unseen(ids, Neighbours(graph, h), seen));
        }
      }
    }

    /** `breadth_first_traversal(from_node, visited)`: a queue, popped from its front. */
    method BreadthFirstTraversal(from: nat, visited: set<int>) returns (order: seq<nat>)
      ensures order == Traverse(graph, [from], visited, false)
    {
      var ids := ResidueIds(graph);
      var queue := [from];
      var seen := visited;
      order := [];
      while |queue| > 0
        invariant order + Traverse(graph, queue, seen, false) == Traverse(graph, [from], visited, false)
        decreases |Unvisited(ids, seen)|, |queue|
      {
        TraverseStep(graph, queue, seen, false);
        var h := queue[0];
        queue := queue[1..];
        if h in ids && ids[h] !in seen {
          VisitShrinks(ids, h, seen);
          seen := seen + {ids[h]};
          order := order + [h];
          queue := queue + SortByOrder(graph, Unseen(ids, Neighbours(graph, h), seen));
        }
      }
    }

    /** `iterlinks(substituents, visited=visited)` over the depth-first traversal. */
    method IterLinks(substituents: bool, visited: set<int>) returns (r: seq<(Position, nat)>)
      ensures r == IterLinksOf(graph, Traverse(graph, [root], visited, true), substituents)
    {
      r := IterLinksFrom(root, substituents, visited);
    }

    /** `Glycan(root=from).iterlinks(substituents, visited=visited)`: the same loops on the structure reached from `from`. */
    method IterLinksFrom(from: nat, substituents: bool, visited: set<int>) returns (r: seq<(Position, nat)>)
      ensures r == IterLinksOf(graph, Traverse(graph, [from], visited, true), substituents)
    {
      var g := graph;
      var nodes := DepthFirstTraversal(from, visited);
      var seen: set<int> := {};
      r := [];
      var i := 0;
      while i < |nodes|
        invariant 0 <= i <= |nodes|
        invariant r + FirstVisits(g, AllVisits(g, nodes[i..], substituents), seen) == IterLinksOf(g, nodes, substituents)
      {
        var vs := NodeVisits(g, nodes[i], substituents);
        AllVisitsUnfold(g, nodes, i, substituents);
        r, seen := PassFirstVisits(g, vs, AllVisits(g, nodes[i + 1..], substituents), r, seen);
        i := i + 1;
      }
      assert nodes[|nodes|..] == [];
    }

    /** `order()` / `len()`: the number of nodes the traversal yields, that is, of distinct residue ids reached. */
    method Order() returns (n: nat)
      ensures n == |Nodes()|
      ensures n == |IdsOf(ResidueIds(graph), Nodes())|
    {
      var nodes := DepthFirstTraversal(root, {});
      n := 0;
      var i := 0;
      while i < |nodes|
        invariant 0 <= i <= |nodes| && n == i
      {
        n := n + 1;
        i := i + 1;
      }
      WalkFresh(ResidueIds(graph), NeighbourFn(graph), KeyFn(graph), [root], {}, true);
      FreshIdsCount(ResidueIds(graph), nodes, {});
    }

    /**
     * `count_branches()`: no branch point counts nothing; the first one
     * counts two branches and every further one adds one.
     */
    method CountBranches() returns (count: nat)
      ensures var k := BranchPoints(graph, Nodes()); count == if k == 0 then 0 else k + 1
    {
      var nodes := DepthFirstTraversal(root, {});
      count := 0;
      var i := 0;
      while i < |nodes|
        invariant 0 <= i <= |nodes|
        invariant var k := BranchPoints(graph, nodes[..i]); count == if k == 0 then 0 else k + 1
      {
        BranchPointsSnoc(graph, nodes[..i], nodes[i]);
        assert nodes[..i + 1] == nodes[..i] + [nodes[i]];
        if Len(Table(graph, LinksOf(ResidueNode(nodes[i])))) > 2 {
          count := count + (if count == 0 then 2 else 1);
        }
        i := i + 1;
      }
      assert nodes[..|nodes|] == nodes;
    }

    /** `get(ix)`: the traversed node with id `ix`, or `IndexError` when there is none. */
    method Get(ix: int) returns (r: Result<nat, GlycanError>)
      ensures r.Ok? ==> r.value in Nodes() && r.value in graph.residues && Id(graph, r.value) == ix
      ensures r.Err? <==> ix !in IdsOf(ResidueIds(graph), Nodes())
      ensures r.Err? ==> r == Err(NoSuchId(ix))
    {
      var nodes := DepthFirstTraversal(root, {});
      WalkFresh(ResidueIds(graph), NeighbourFn(graph), KeyFn(graph), [root], {}, true);
      var i := 0;
      while i < |nodes|
        invariant 0 <= i <= |nodes|
        invariant forall j | 0 <= j < i :: Id(graph, nodes[j]) != ix
      {
        if Id(graph, nodes[i]) == ix {
          IdsOfMember(ResidueIds(graph), nodes, i);
          return Ok(nodes[i]);
        }
        i := i + 1;
      }
      if ix in IdsOf(ResidueIds(graph), nodes) {
        IdsOfWitness(ResidueIds(graph), nodes, ix);
      }
      r := Err(NoSuchId(ix));
    }

    /**
     * `label_branches()`: labels the child links of every traversed node
     * and records the branch lengths, as `LabelAll` describes, then sets
     * '-' to the longest length. Nothing but link labels and
     * `branch_lengths` changes, also when an exception stops it part way.
     */
    method LabelBranches() returns (r: Result<(), LabelError>)
      modifies this`graph, this`branchLengths
      ensures graph == old(graph).(links := graph.links) && SameBonds(old(graph).links, graph.links)
      ensures var s := LabelAll(old(graph), old(Nodes()), StartLabels(old(graph).links));
        (r.Ok? <==> s.Ok?) &&
        (r.Err? ==> r.error == s.error) &&
        (s.Ok? ==> graph.links == s.value.links && MainIsLongest(s.value.lengths, branchLengths))
    {
      ghost var g0 := graph;
      ghost var spec := LabelAll(g0, Nodes(), StartLabels(g0.links));
      var nodes := DepthFirstTraversal(root, {});
      var last := MainBranch;
      branchLengths := map[MainBranch := 0];
      var i := 0;
      while i < |nodes|
        invariant 0 <= i <= |nodes|
        invariant graph == g0.(links := graph.links) && SameBonds(g0.links, graph.links)
        invariant MainBranch in branchLengths
        invariant LabelAll(g0, nodes[i..], LabelState(graph.links, branchLengths, last)) == spec
      {
        assert nodes[i..][0] == nodes[i] && nodes[i..][1..] == nodes[i + 1..];
        assert Table(graph, LinksOf(ResidueNode(nodes[i]))) == Table(g0, LinksOf(ResidueNode(nodes[i])));
        var step := LabelNodeStep(nodes[i], last);
        if step.Err? {
          return Err(step.error);
        }
        last := step.value;
        i := i + 1;
      }
      assert nodes[|nodes|..] == [];
      var longest := MaxValue(branchLengths);
      branchLengths := branchLengths[MainBranch := longest];
      r := Ok(());
    }

    /** The body of the node loop of `label_branches` for residue `h`; returns the new `last_branch_label`. */
    method LabelNodeStep(h: nat, last: char) returns (r: Result<char, LabelError>)
      modifies this`graph, this`branchLengths
      ensures graph == old(graph).(links := graph.links) && SameBonds(old(graph).links, graph.links)
      ensures old(MainBranch in branchLengths) ==> MainBranch in branchLengths
      ensures var s := old(LabelNode(LabelState(graph.links, branchLengths, last), Table(graph, LinksOf(ResidueNode(h))), ResidueNode(h)));
        (r.Ok? <==> s.Ok?) &&
        (r.Err? ==> r.error == s.error) &&
        (s.Ok? ==> graph.links == s.value.links && branchLengths == s.value.lengths && r.value == s.value.last)
    {
      var n := ResidueNode(h);
      var table := Table(graph, LinksOf(n));
      var items := Items(table);
      if !Known(graph.links, items) {
        return Err(BrokenTable);
      }
      var links := ChildLinksOf(graph.links, items, n);
      var key := ParentKey(graph.links, table, n);
      if key.Err? {
        return Err(key.error);
      }
      r := LabelChildLinks(links, key.value, last);
    }

    /** The rest of the node's step once the parent's letter `key` is known. */
    method LabelChildLinks(cs: seq<nat>, key: char, last: char) returns (r: Result<char, LabelError>)
      requires forall x | 0 <= x < |cs| :: cs[x] in graph.links
      modifies this`graph, this`branchLengths
      ensures graph == old(graph).(links := graph.links) && SameBonds(old(graph).links, graph.links)
      ensures old(MainBranch in branchLengths) ==> MainBranch in branchLengths
      ensures var s := old(LabelChildren(LabelState(graph.links, branchLengths, last), cs, key));
        (r.Ok? <==> s.Ok?) &&
        (r.Err? ==> r.error == s.error) &&
        (s.Ok? ==> graph.links == s.value.links && branchLengths == s.value.lengths && r.value == s.value.last)
    {
      if key !in branchLengths {
        return Err(MissingBranch(key));
      }
      if |cs| == 1 {
        var d := branchLengths[key] + 1;
        assert SameBonds(graph.links, graph.links);
        SameBondsStep(graph.links, graph.links, cs[0], Label(key, d));
        branchLengths := branchLengths[key := d];
        graph := graph.(links := Labelled(graph.links, cs[0], Label(key, d)));
        r := Ok(last);
      } else {
        r := AllocateLetters(cs, branchLengths[key] + 1, last);
      }
    }

    /** The inner loop of the several-children case: each link in `cs` gets the next letter. */
    method AllocateLetters(cs: seq<nat>, depth: int, last0: char) returns (r: Result<char, LabelError>)
      requires forall x | 0 <= x < |cs| :: cs[x] in graph.links
      modifies this`graph, this`branchLengths
      ensures graph == old(graph).(links := graph.links) && SameBonds(old(graph).links, graph.links)
      ensures old(MainBranch in branchLengths) ==> MainBranch in branchLengths
      ensures var s := old(Allocate(LabelState(graph.links, branchLengths, last0), cs, depth));
        (r.Ok? <==> s.Ok?) &&
        (r.Err? ==> r.error == s.error) &&
        (s.Ok? ==> graph.links == s.value.links && branchLengths == s.value.lengths && r.value == s.value.last)
    {
      ghost var spec := Allocate(LabelState(graph.links, branchLengths, last0), cs, depth);
      var last := last0;
      var k := 0;
      assert cs[k..] == cs;
      while k < |cs|
        invariant 0 <= k <= |cs|
        invariant graph == old(graph).(links := graph.links) && SameBonds(old(graph).links, graph.links)
        invariant old(MainBranch in branchLengths) ==> MainBranch in branchLengths
        invariant forall x | 0 <= x < |cs| :: cs[x] in graph.links
        invariant Allocate(LabelState(graph.links, branchLengths, last), cs[k..], depth) == spec
      {
        AllocateSuffixStep(LabelState(graph.links, branchLengths, last), cs, k, depth);
        var next := NextLetter(last);
        if next.Err? {
          return Err(next.error);
        }
        last := next.value;
        SameBondsStep(old(graph).links, graph.links, cs[k], Label(last, depth));
        branchLengths := branchLengths[last := depth];
        graph := graph.(links := Labelled(graph.links, cs[k], Label(last, depth)));
        k := k + 1;
      }
      assert cs[|cs|..] == [];
      r := Ok(last);
    }

    /**
     * `reindex()`: residue ids become 1..N in depth-first order and `index`
     * lists the residues in that order; then link ids become 1..M in the
     * order `iterlinks` first meets them on the renumbered structure and
     * `link_index` lists them so; then the branches are labelled.
     */
    method Reindex() returns (r: Result<(), LabelError>)
      modifies this
      ensures root == old(root) && index == old(Nodes())
      ensures var g1 := old(graph).(residues := Renumbered(old(graph).residues, index, 1, WithResidueId));
        var li := Handles(IterLinksOf(g1, Traverse(g1, [root], {}, true), false));
        var g2 := g1.(links := Renumbered(g1.links, li, 1, WithLinkId));
        var s := LabelAll(g2, Traverse(g2, [root], {}, true), StartLabels(g2.links));
        linkIndex == li &&
        graph == g2.(links := graph.links) && SameBonds(g2.links, graph.links) &&
        (r.Ok? <==> s.Ok?) && (r.Err? ==> r.error == s.error) &&
        (s.Ok? ==> graph.links == s.value.links && MainIsLongest(s.value.lengths, branchLengths))
      ensures forall i | 0 <= i < |index| :: index[i] in graph.residues && graph.residues[index[i]].id == i + 1
      ensures forall i | 0 <= i < |linkIndex| :: linkIndex[i] in graph.links && graph.links[linkIndex[i]].id == i + 1
      ensures graph.residues.Keys == old(graph).residues.Keys && graph.links.Keys == old(graph).links.Keys
      ensures forall h | h in old(graph).residues && h !in index :: graph.residues[h] == old(graph).residues[h]
    {
      ghost var g0 := graph;
      var nodes := DepthFirstTraversal(root, {});
      WalkFresh(ResidueIds(g0), NeighbourFn(g0), KeyFn(g0), [root], {}, true);
      FreshHandles(ResidueIds(g0), nodes, {});
      RenumberResidues(nodes);
      RenumberedAt(g0.residues, nodes, 1, WithResidueId);
      ghost var g1 := graph;

      var entries := IterLinks(false, {});
      IterLinksOnce(g1, Traverse(g1, [root], {}, true));
      OnceHandles(g1, entries);
      var links := LinkHandles(entries);
      RenumberLinks(links);
      RenumberedAt(g1.links, links, 1, WithLinkId);
      ghost var g2 := graph;
      index := nodes;
      linkIndex := links;
      assert Nodes() == Traverse(g2, [root], {}, true);
      r := LabelBranches();
      forall x | 0 <= x < |linkIndex| ensures linkIndex[x] in graph.links && graph.links[linkIndex[x]].id == x + 1 {
        assert graph.links[linkIndex[x]] == g2.links[linkIndex[x]].(branchLabel := graph.links[linkIndex[x]].branchLabel);
      }
    }

    /** The loop of `reindex` that gives the listed residues the ids 1, 2, ... */
    method RenumberResidues(nodes: seq<nat>)
      requires forall i | 0 <= i < |nodes| :: nodes[i] in graph.residues
      modifies this`graph
      ensures graph == old(graph).(residues := Renumbered(old(graph).residues, nodes, 1, WithResidueId))
    {
      var i := 0;
      while i < |nodes|
        invariant 0 <= i <= |nodes|
        invariant graph == old(graph).(residues := graph.residues)
        invariant graph.residues.Keys == old(graph).residues.Keys
        invariant Renumbered(graph.residues, nodes[i..], i + 1, WithResidueId) == Renumbered(old(graph).residues, nodes, 1, WithResidueId)
      {
        assert nodes[i..][0] == nodes[i] && nodes[i..][1..] == nodes[i + 1..];
        var h := nodes[i];
        graph := graph.(residues := graph.residues[h := WithResidueId(graph.residues[h], i + 1)]);
        i := i + 1;
      }
      assert nodes[|nodes|..] == [];
    }

    /** The loop of `reindex` that gives the listed links the ids 1, 2, ... */
    method RenumberLinks(links: seq<nat>)
      requires forall i | 0 <= i < |links| :: links[i] in graph.links
      modifies this`graph
      ensures graph == old(graph).(links := Renumbered(old(graph).links, links, 1, WithLinkId))
    {
      var i := 0;
      while i < |links|
        invariant 0 <= i <= |links|
        invariant graph == old(graph).(links := graph.links)
        invariant graph.links.Keys == old(graph).links.Keys
        invariant Renumbered(graph.links, links[i..], i + 1, WithLinkId) == Renumbered(old(graph).links, links, 1, WithLinkId)
      {
        assert links[i..][0] == links[i] && links[i..][1..] == links[i + 1..];
        var k := links[i];
        graph := graph.(links := graph.links[k := WithLinkId(graph.links[k], i + 1)]);
        i := i + 1;
      }
      assert links[|links|..] == [];
    }

    /** The residues `Glycan(root=n)` iterates, depth first; an end that is not a residue reaches none. */
    method SideOf(n: NodeRef) returns (nodes: seq<nat>)
      ensures nodes == Side(graph, n)
    {
      nodes := [];
      if n.ResidueNode? {
        nodes := DepthFirstTraversal(n.h, {});
      }
    }

    /** The links `Glycan(root=n).iterlinks()` yields, as handles. */
    method LinksOfSide(n: NodeRef) returns (ks: seq<nat>)
      ensures ks == LinksFrom(graph, n)
    {
      ks := [];
      if n.ResidueNode? {
        var entries := IterLinksFrom(n.h, false, {});
        ks := LinkHandles(entries);
      }
    }

    /**
     * `Glycan(root=from).break_links(n_links, kind, visited=visited)`: the
     * fragments and the state it leaves are those `BreakLinksOf` describes.
     */
    method BreakLinks(from: NodeRef, n: nat, kinds: set<char>, visited: set<int>) returns (fs: seq<Fragment>)
      modifies this`graph
      ensures Enumeration(fs, graph) == BreakLinksOf(old(graph), from, n, kinds, visited)
      decreases n, 1
    {
      var m := n - 1;
      var ks := LinksOfSide(from);
      ghost var spec := BreakEach(graph, ks, m, kinds, visited);
      fs := [];
      var i := 0;
      assert ks[i..] == ks;
      while i < |ks|
        invariant 0 <= i <= |ks|
        invariant fs + BreakEach(graph, ks[i..], m, kinds, visited).fragments == spec.fragments
        invariant BreakEach(graph, ks[i..], m, kinds, visited).graph == spec.graph
      {
        ghost var g := graph;
        var more := BreakOneLink(ks[i], m, kinds, visited);
        BreakEachStep(g, ks, i, m, kinds, visited, fs, more, graph, spec);
        fs := fs + more;
        i := i + 1;
      }
      assert ks[|ks|..] == [];
    }

    /**
     * The body of the `break_links` loop for link `k`, with `n_links`
     * already decremented to `m`; the link is applied again at the end, as
     * the `finally` block does.
     */
    method BreakOneLink(k: nat, m: int, kinds: set<char>, visited: set<int>) returns (fs: seq<Fragment>)
      requires m >= -1
      modifies this`graph
      ensures Enumeration(fs, graph) == BreakOne(old(graph), k, m, kinds, visited)
      decreases m + 1, 0
    {
      if k !in graph.links || graph.links[k].id in visited || !graph.links[k].attached {
        return [];
      }
      ghost var g := graph;
      var l := graph.links[k];
      graph := BreakLink(graph, k, true);
      if m > 0 {
        var pf := BreakLinks(l.parent, m, kinds, visited);
        var cf := BreakLinks(l.child, m, kinds, visited);
        var a := ExtendFragments(pf, ParentSide(kinds), l.id);
        var b := ExtendFragments(cf, ChildSide(kinds), l.id);
        fs := a + b;
      } else {
        var pn := SideOf(l.parent);
        var cn := SideOf(l.child);
        var a := LeafFragments(ParentSide(kinds), l.id, IdList(graph, pn), TreeComposition(graph, pn));
        var b := LeafFragments(ChildSide(kinds), l.id, IdList(graph, cn), TreeComposition(graph, cn));
        fs := a + b;
      }
      Relinked(g.links, k);
      graph := ApplyLink(graph, k);
    }

    /**
     * `Glycan(root=from).break_links_subtrees(n_links, min_size)`: the splits
     * and the state it leaves are those `SubtreesOf` describes.
     */
    method BreakLinksSubtrees(from: NodeRef, n: nat, minSize: int) returns (ss: seq<Split>)
      modifies this`graph
      ensures Splits(ss, graph) == SubtreesOf(old(graph), from, n, minSize)
      decreases n, 1
    {
      var m := n - 1;
      var ks := LinksOfSide(from);
      ghost var spec := SubtreesEach(graph, ks, m, minSize);
      ss := [];
      var i := 0;
      assert ks[i..] == ks;
      while i < |ks|
        invariant 0 <= i <= |ks|
        invariant ss + SubtreesEach(graph, ks[i..], m, minSize).splits == spec.splits
        invariant SubtreesEach(graph, ks[i..], m, minSize).graph == spec.graph
      {
        ghost var g := graph;
        var more := SubtreesOneLink(ks[i], m, minSize);
        SubtreesEachStep(g, ks, i, m, minSize, ss, more, graph, spec);
        ss := ss + more;
        i := i + 1;
      }
      assert ks[|ks|..] == [];
    }

    /** The body of the `break_links_subtrees` loop for link `k`, with `n_links` already decremented to `m`. */
    method SubtreesOneLink(k: nat, m: int, minSize: int) returns (ss: seq<Split>)
      requires m >= -1
      modifies this`graph
      ensures Splits(ss, graph) == SubtreesOne(old(graph), k, m, minSize)
      decreases m + 1, 0
    {
      if k !in graph.links {
        return [];
      }
      var l := graph.links[k];
      graph := BreakLink(graph, k, true);
      ghost var g1 := graph;
      var pn := SideOf(l.parent);
      var cn := SideOf(l.child);
      ss := [];
      if |pn| > minSize || |cn| > minSize {
        ss := [Split(IdList(graph, pn), |pn|, IdList(graph, cn), |cn|, [l.id])];
      }
      ghost var here := ss;
      var inner: seq<Split> := [];
      if m > 0 && |pn| > minSize {
        inner := BreakLinksSubtrees(l.parent, m, minSize);
      }
      var a := AppendBreak(inner, l.id);
      ghost var g2 := graph;
      var co := SideOf(l.child);
      inner := [];
      if m > 0 && |co| > minSize {
        inner := BreakLinksSubtrees(l.child, m, minSize);
      }
      var b := AppendBreak(inner, l.id);
      ss := ss + a + b;
      graph := ApplyLink(graph, k);
    }

    /**
     * `fragments(kind, max_cleavages, min_cleavages, inplace, visited)`:
     * every round of `break_links` from `min_cleavages` to
     * `max_cleavages`, on this glycan when `inplace` holds and on a copy
     * otherwise, each fragment named by `name_fragment`.
     */
    method Fragments(kinds: set<char>, minC: int, maxC: int, visited: set<int>, inplace: bool) returns (r: Result<seq<NamedFragment>, FragmentError>)
      modifies this`graph
      ensures r == FragmentsOf(old(graph), ResidueNode(root), linkIndex, branchLengths, kinds, minC, maxC, visited)
      ensures graph == if inplace then GraphAfter(old(graph), ResidueNode(root), kinds, minC, maxC, visited) else old(graph)
    {
      if minC > maxC {
        return Ok([]);
      }
      if minC < 0 {
        return Err(NegativeCleavages(minC));
      }
      ghost var g0 := graph;
      var fs;
      if inplace {
        fs := BreakRounds(minC, maxC, kinds, visited);
      } else {
        var gen := new Glycan(graph, root);
        fs := gen.BreakRounds(minC, maxC, kinds, visited);
      }
      RoundsShaped(g0, ResidueNode(root), minC, maxC, kinds, visited);
      var names := NameAll(fs);
      NamedAllSameLinks(graph, g0, linkIndex, branchLengths, fs, BreakableIds(g0.links, visited), kinds);
      r := Ok(names);
    }

    /** The loop of `fragments` over the cleavage counts `lo..hi`, on this glycan's graph. */
    method BreakRounds(lo: nat, hi: int, kinds: set<char>, visited: set<int>) returns (fs: seq<Fragment>)
      modifies this`graph
      ensures Enumeration(fs, graph) == Rounds(old(graph), ResidueNode(root), lo, hi, kinds, visited)
    {
      ghost var spec := Rounds(graph, ResidueNode(root), lo, hi, kinds, visited);
      fs := [];
      var i := lo;
      while i <= hi
        invariant lo <= i && (lo <= hi ==> i <= hi + 1)
        invariant fs + Rounds(graph, ResidueNode(root), i, hi, kinds, visited).fragments == spec.fragments
        invariant Rounds(graph, ResidueNode(root), i, hi, kinds, visited).graph == spec.graph
        decreases hi - i + 1
      {
        ghost var g := graph;
        var more := BreakLinks(ResidueNode(root), i, kinds, visited);
        RoundsStep(g, ResidueNode(root), i, hi, kinds, visited, fs, more, graph, spec);
        fs := fs + more;
        i := i + 1;
      }
      assert fs + [] == fs;
    }

    /** The `name_fragment` call of the `fragments` loop, over one round's fragments. */
    method NameAll(fs: seq<Fragment>) returns (out: seq<NamedFragment>)
      ensures out == NamedAll(graph, linkIndex, branchLengths, fs)
    {
      out := [];
      var j := 0;
      while j < |fs|
        invariant 0 <= j <= |fs|
        invariant out == NamedAll(graph, linkIndex, branchLengths, fs[..j])
      {
        var name := NameFragment(fs[j]);
        NamedAllConcat(graph, linkIndex, branchLengths, fs[..j], [fs[j]]);
        assert fs[..j + 1] == fs[..j] + [fs[j]];
        out := out + [NamedFragment(fs[j], if name.Ok? then Some(name.value) else None)];
        j := j + 1;
      }
      assert fs[..j] == fs;
    }

    /**
     * `name_fragment(fragment)`: the cross-ring parts, then one part per
     * glycosidically broken link, each kind in the iteration order of its
     * dict, joined by dashes; each ion is named after the link it broke.
     */
    method NameFragment(f: Fragment) returns (r: Result<string, NameError>)
      ensures r == NameFragmentOf(graph, linkIndex, branchLengths, f)
    {
      var types := IonTypes(f.kind);
      if |types| == 0 {
        return Err(NoIonType);
      }
      var pairs := Zip(types, f.linkIds);
      var cross := Targets(Crossring(pairs));
      var glyco := Targets(Glycosidic(pairs));
      var parts: seq<string> := [];
      var i := 0;
      assert cross[i..] == cross;
      PrependNil(CrossringParts(graph, linkIndex, branchLengths, cross));
      while i < |cross|
        invariant 0 <= i <= |cross|
        invariant CrossringParts(graph, linkIndex, branchLengths, cross) == Prepend(parts, CrossringParts(graph, linkIndex, branchLengths, cross[i..]))
      {
        assert cross[i..][0] == cross[i] && cross[i..][1..] == cross[i + 1..];
        var found := ChildLink(cross[i].1);
        var part := CrossPart(graph, linkIndex, branchLengths, cross[i].0, found);
        if part.Err? {
          return Err(part.error);
        }
        PrependAssoc(parts, part.value, CrossringParts(graph, linkIndex, branchLengths, cross[i + 1..]));
        parts := parts + part.value;
        i := i + 1;
      }
      assert cross[i..] == [];
      assert parts + [] == parts;
      ghost var crossParts := parts;
      assert CrossringParts(graph, linkIndex, branchLengths, cross) == Ok(crossParts);
      var name := PairName(graph, linkIndex, branchLengths, if |f.linkIds| > 0 then f.linkIds[0] else 0, false);
      var j := 0;
      assert glyco[j..] == glyco;
      while j < |glyco|
        invariant 0 <= j <= |glyco|
        invariant Prepend(crossParts, Parts(glyco, name)) == Prepend(parts, Parts(glyco[j..], name))
      {
        assert glyco[j..][0] == glyco[j] && glyco[j..][1..] == glyco[j + 1..];
        var part := BreakName(graph, linkIndex, branchLengths, glyco[j].0.letter, glyco[j].1, glyco[j].1);
        if part.Err? {
          return Err(part.error);
        }
        PrependAssoc(parts, [part.value], Parts(glyco[j + 1..], name));
        parts := parts + [part.value];
        j := j + 1;
      }
      assert glyco[j..] == [];
      assert parts + [] == parts;
      assert BreakParts(graph, linkIndex, branchLengths, glyco, if |f.linkIds| > 0 then f.linkIds[0] else 0, false) == Parts(glyco, name);
      r := Ok(Join(parts));
    }

    /** The inner search of `name_fragment`: the first indexed link whose child has id `nodeId`. */
    method ChildLink(nodeId: int) returns (found: Option<nat>)
      ensures found == FirstChildLink(graph, linkIndex, nodeId)
    {
      var j := 0;
      while j < |linkIndex|
        invariant 0 <= j <= |linkIndex|
        invariant FirstChildLink(graph, linkIndex, nodeId) == FirstChildLink(graph, linkIndex[j..], nodeId)
      {
        assert linkIndex[j..][0] == linkIndex[j] && linkIndex[j..][1..] == linkIndex[j + 1..];
        var h := linkIndex[j];
        if h in graph.links && NodeId(graph, graph.links[h].child) == nodeId {
          return Some(h);
        }
        j := j + 1;
      }
      return None;
    }
  }

  // ---------------------------------------------------------------------------
  // Renumbering

  /** `for node in nodes: node.id = i; i += 1`, on an arena of objects with ids. */
  function Renumbered<T>(m: map<nat, T>, hs: seq<nat>, start: int, withId: (T, int) -> T): map<nat, T> {
    if |hs| == 0 then m
    else Renumbered(if hs[0] in m then m[hs[0] := withId(m[hs[0]], start)] else m, hs[1..], start + 1, withId)
  }

  function WithResidueId(r: Residue, n: int): Residue { r.(id := n) }

  function WithLinkId(l: Link, n: int): Link { l.(id := n) }

  lemma HandlesSnoc(items: Entries, e: (Position, nat))
    ensures Handles(items + [e]) == Handles(items) + [e.1]
  {
  }

  /** `for pos, link in self.iterlinks(): link_index.append(link)` */
  method LinkHandles(entries: Entries) returns (links: seq<nat>)
    ensures links == Handles(entries)
  {
    links := [];
    var i := 0;
    while i < |entries|
      invariant 0 <= i <= |entries| && links == Handles(entries[..i])
    {
      assert entries[..i + 1] == entries[..i] + [entries[i]];
      HandlesSnoc(entries[..i], entries[i]);
      links := links + [entries[i].1];
      i := i + 1;
    }
    assert entries[..|entries|] == entries;
  }

  /** `for k in kind & set(...): for ... in inner_frags: yield ion_type + k, link_ids + [break_id], include, mass - offset` */
  method ExtendFragments(fs: seq<Fragment>, ions: string, breakId: int) returns (r: seq<Fragment>)
    ensures r == ExtendedAll(fs, ions, breakId)
  {
    r := [];
    var i := 0;
    while i < |ions|
      invariant 0 <= i <= |ions|
      invariant r + ExtendedAll(fs, ions[i..], breakId) == ExtendedAll(fs, ions, breakId)
    {
      ExtendedAllUnfold(fs, ions, i, breakId);
      var e := ExtendByIon(fs, ions[i], breakId);
      ConcatAssoc(r, e, ExtendedAll(fs, ions[i + 1..], breakId));
      r := r + e;
      i := i + 1;
    }
    assert ions[|ions|..] == [];
  }

  /** The inner loop for one ion kind `k`: every inner fragment, extended by `k` and the broken link. */
  method ExtendByIon(fs: seq<Fragment>, k: char, breakId: int) returns (r: seq<Fragment>)
    ensures r == Extended(fs, k, breakId)
  {
    ghost var e := Extended(fs, k, breakId);
    r := [];
    var j := 0;
    while j < |fs|
      invariant 0 <= j <= |fs|
      invariant r == e[..j]
    {
      var f := fs[j];
      var x := Fragment(f.kind + [k], f.linkIds + [breakId], f.included, Sub(f.composition, Shift(k)));
      assert e[..j + 1] == e[..j] + [x];
      r := r + [x];
      j := j + 1;
    }
    assert e[..|fs|] == e;
  }

  /** `for ... , link_ids in inner: yield ..., link_ids + [break_id]` */
  method AppendBreak(ss: seq<Split>, breakId: int) returns (r: seq<Split>)
    ensures r == WithBreak(ss, breakId)
  {
    ghost var all := WithBreak(ss, breakId);
    r := [];
    var i := 0;
    while i < |ss|
      invariant 0 <= i <= |ss|
      invariant r == all[..i]
    {
      assert all[..i + 1] == all[..i] + [all[i]];
      r := r + [ss[i].(linkIds := ss[i].linkIds + [breakId])];
      i := i + 1;
    }
    assert all[..|ss|] == all;
  }

  /** `for k in kind & set(...): yield (k, [break_id], include, tree.mass() - offset)` */
  method LeafFragments(ions: string, breakId: int, included: seq<int>, total: Composition) returns (r: seq<Fragment>)
    ensures r == Leaves(ions, breakId, included, total)
  {
    ghost var all := Leaves(ions, breakId, included, total);
    r := [];
    var i := 0;
    while i < |ions|
      invariant 0 <= i <= |ions|
      invariant r == all[..i]
    {
      assert all[..i + 1] == all[..i] + [all[i]];
      r := r + [Fragment([ions[i]], [breakId], included, Sub(total, Shift(ions[i])))];
      i := i + 1;
    }
    assert all[..|ions|] == all;
  }

  /**
   * Renumbering listed objects, none listed twice, gives the i-th the id
   * `start + i` and leaves every other object as it was.
   */
  lemma {:induction false} RenumberedAt<T>(m: map<nat, T>, hs: seq<nat>, start: int, withId: (T, int) -> T)
    requires forall i | 0 <= i < |hs| :: hs[i] in m
    requires forall i, j | 0 <= i < j < |hs| :: hs[i] != hs[j]
    ensures var r := Renumbered(m, hs, start, withId);
      r.Keys == m.Keys &&
      (forall i | 0 <= i < |hs| :: r[hs[i]] == withId(m[hs[i]], start + i)) &&
      (forall k | k in m && k !in hs :: r[k] == m[k])
  {
    if |hs| > 0 {
      var m1 := m[hs[0] := withId(m[hs[0]], start)];
      var rest := hs[1..];
      assert forall i | 0 <= i < |rest| :: rest[i] == hs[i + 1];
      RenumberedAt(m1, rest, start + 1, withId);
      var r := Renumbered(m, hs, start, withId);
      assert r == Renumbered(m1, rest, start + 1, withId);
      assert hs[0] !in rest;
      forall i | 0 < i < |hs| ensures r[hs[i]] == withId(m[hs[i]], start + i) {
        assert hs[i] == rest[i - 1];
      }
      forall k | k in m && k !in hs ensures r[k] == m[k] {
        assert k !in rest && k != hs[0];
      }
    }
  }

  /** Nodes with pairwise different ids are pairwise different nodes. */
  lemma FreshHandles(ids: Ids, out: seq<nat>, visited: set<int>)
    requires FreshIds(ids, out, visited)
    ensures forall i | 0 <= i < |out| :: out[i] in ids
    ensures forall i, j | 0 <= i < j < |out| :: out[i] != out[j]
  {
  }

  /** Links yielded once each by id are yielded once each by handle. */
  lemma OnceHandles(g: Graph, entries: Entries)
    requires LinksOnce(g, entries, {})
    ensures var hs := Handles(entries);
      (forall i | 0 <= i < |hs| :: hs[i] in g.links) &&
      (forall i, j | 0 <= i < j < |hs| :: hs[i] != hs[j])
  {
  }

  lemma ConcatAssoc<T>(a: seq<T>, b: seq<T>, c: seq<T>)
    ensures (a + b) + c == a + (b + c)
  {
  }

  /**
   * The inner loop of `iterlinks` over the links of one node: substituent
   * links pass, other links pass when their id is not yet seen. Ahead of
   * the visits still to come, it does what `FirstVisits` does.
   */
  method PassFirstVisits(g: Graph, vs: seq<Visit>, ghost rest: seq<Visit>, r0: seq<(Position, nat)>, seen0: set<int>)
    returns (r: seq<(Position, nat)>, seen: set<int>)
    ensures r + FirstVisits(g, rest, seen) == r0 + FirstVisits(g, vs + rest, seen0)
  {
    ghost var all := vs + rest;
    r, seen := r0, seen0;
    var j := 0;
    while j < |vs|
      invariant 0 <= j <= |vs|
      invariant r + FirstVisits(g, all[j..], seen) == r0 + FirstVisits(g, all, seen0)
    {
      var v := vs[j];
      assert all[j] == v;
      FirstVisitsStep(g, all[j..], all[j + 1..], seen);
      if v.substituent {
        AppendAssoc(r, (v.pos, v.link), FirstVisits(g, all[j + 1..], seen));
        r := r + [(v.pos, v.link)];
      } else if v.link in g.links && g.links[v.link].id !in seen {
        AppendAssoc(r, (v.pos, v.link), FirstVisits(g, all[j + 1..], seen + {g.links[v.link].id}));
        r := r + [(v.pos, v.link)];
        seen := seen + {g.links[v.link].id};
      }
      j := j + 1;
    }
    assert all[|vs|..] == rest;
  }

  lemma AppendAssoc<T>(a: seq<T>, x: T, b: seq<T>)
    ensures (a + [x]) + b == a + ([x] + b)
  {
  }

  lemma AllVisitsUnfold(g: Graph, nodes: seq<nat>, i: nat, substituents: bool)
    requires i < |nodes|
    ensures AllVisits(g, nodes[i..], substituents) == NodeVisits(g, nodes[i], substituents) + AllVisits(g, nodes[i + 1..], substituents)
  {
    assert nodes[i..][1..] == nodes[i + 1..];
  }

  /** One step of `FirstVisits`, stated with the tail given separately. */
  lemma FirstVisitsStep(g: Graph, vs: seq<Visit>, rest: seq<Visit>, seen: set<int>)
    requires |vs| > 0 && vs[1..] == rest
    ensures var v := vs[0];
      FirstVisits(g, vs, seen) ==
        if v.substituent then [(v.pos, v.link)] + FirstVisits(g, rest, seen)
        else if v.link !in g.links || g.links[v.link].id in seen then FirstVisits(g, rest, seen)
        else [(v.pos, v.link)] + FirstVisits(g, rest, seen + {g.links[v.link].id})
  {
  }

  lemma {:induction false} IdsOfMember(ids: Ids, hs: seq<nat>, i: nat)
    requires i < |hs| && hs[i] in ids
    ensures ids[hs[i]] in IdsOf(ids, hs)
  {
    if i > 0 {
      IdsOfMember(ids, hs[1..], i - 1);
    }
  }

  lemma {:induction false} BranchPointsSnoc(g: Graph, nodes: seq<nat>, h: nat)
    ensures BranchPoints(g, nodes + [h]) == BranchPoints(g, nodes) + BranchPoints(g, [h])
  {
    if |nodes| > 0 {
      assert (nodes + [h])[1..] == nodes[1..] + [h];
      BranchPointsSnoc(g, nodes[1..], h);
    } else {
      assert nodes + [h] == [h];
    }
  }
}
