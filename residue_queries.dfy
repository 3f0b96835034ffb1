/**
 * The read-only queries of a residue in pygly2/structure/monosaccharide.py:
 * `children`, `parents`, `substituents`, `order` and `total_composition`,
 * and how the edits of the Monosaccharides module move them.
 */
module ResidueQueries {
  import opened Wrappers
  import opened MultiMaps
  import opened Compositions
  import opened Graphs
  import opened Monosaccharides

  /** The (position, link handle) pairs of a link table's `items()`. */
  type Entries = seq<(Position, nat)>

  /** A node of the structure with the position it hangs from. */
  type Neighbour = (Position, NodeRef)

  /** Every handle listed names a stored link. */
  predicate Known(links: map<nat, Link>, items: Entries) {
    forall i | 0 <= i < |items| :: items[i].1 in links
  }

  /** Every listed link has `n` as exactly one of its ends: what filing a link in `n`'s table means. */
  predicate Incident(links: map<nat, Link>, items: Entries, n: NodeRef)
    requires Known(links, items)
  {
    forall i | 0 <= i < |items| ::
      var l := links[items[i].1]; (l.parent == n) != (l.child == n)
  }

  /** `Link.to(node)`: the end of the link that is not `n`. */
  function Far(l: Link, n: NodeRef): NodeRef {
    if l.parent == n then l.child else l.parent
  }

  /** The loop of `children`: skips each link whose child is `n` and yields the child of every other one. */
  function ChildrenOf(links: map<nat, Link>, items: Entries, n: NodeRef): seq<Neighbour>
    requires Known(links, items)
  {
    if |items| == 0 then []
    else
      var l := links[items[0].1];
      (if l.child != n then [(items[0].0, l.child)] else []) + ChildrenOf(links, items[1..], n)
  }

  /** The loop of `parents`: skips each link whose parent is `n` and yields the parent of every other one. */
  function ParentsOf(links: map<nat, Link>, items: Entries, n: NodeRef): seq<Neighbour>
    requires Known(links, items)
  {
    if |items| == 0 then []
    else
      var l := links[items[0].1];
      (if l.parent != n then [(items[0].0, l.parent)] else []) + ParentsOf(links, items[1..], n)
  }

  /** The loop of `substituents`: the far end of every link, in order. */
  function FarEnds(links: map<nat, Link>, items: Entries, n: NodeRef): (r: seq<Neighbour>)
    requires Known(links, items)
    ensures |r| == |items|
  {
    if |items| == 0 then []
    else [(items[0].0, Far(links[items[0].1], n))] + FarEnds(links, items[1..], n)
  }

  /** A pair is yielded by `children` exactly when some listed link hangs that child, other than `n`, at that position. */
  lemma {:induction false} ChildrenOfMembers(links: map<nat, Link>, items: Entries, n: NodeRef, p: Position, c: NodeRef)
    requires Known(links, items)
    ensures (p, c) in ChildrenOf(links, items, n) <==>
            exists i | 0 <= i < |items| :: items[i].0 == p && links[items[i].1].child == c && c != n
  {
    if |items| > 0 {
      ChildrenOfMembers(links, items[1..], n, p, c);
      if (p, c) in ChildrenOf(links, items[1..], n) {
        var i :| 0 <= i < |items[1..]| && items[1..][i].0 == p && links[items[1..][i].1].child == c && c != n;
        assert items[i + 1] == items[1..][i];
      }
      if exists i | 0 <= i < |items| :: items[i].0 == p && links[items[i].1].child == c && c != n {
        var i :| 0 <= i < |items| && items[i].0 == p && links[items[i].1].child == c && c != n;
        if i > 0 {
          assert items[1..][i - 1] == items[i];
        }
      }
    }
  }

  lemma {:induction false} ChildrenOfAppend(links: map<nat, Link>, a: Entries, b: Entries, n: NodeRef)
    requires Known(links, a) && Known(links, b)
    ensures Known(links, a + b) && ChildrenOf(links, a + b, n) == ChildrenOf(links, a, n) + ChildrenOf(links, b, n)
  {
    assert Known(links, a + b) by {
      forall i | 0 <= i < |a + b| ensures (a + b)[i].1 in links {
        if i >= |a| { assert (a + b)[i] == b[i - |a|]; }
      }
    }
    if |a| > 0 {
      assert (a + b)[0] == a[0] && (a + b)[1..] == a[1..] + b;
      ChildrenOfAppend(links, a[1..], b, n);
    } else {
      assert a + b == b;
    }
  }

  lemma {:induction false} ParentsOfAppend(links: map<nat, Link>, a: Entries, b: Entries, n: NodeRef)
    requires Known(links, a) && Known(links, b)
    ensures Known(links, a + b) && ParentsOf(links, a + b, n) == ParentsOf(links, a, n) + ParentsOf(links, b, n)
  {
    assert Known(links, a + b) by {
      forall i | 0 <= i < |a + b| ensures (a + b)[i].1 in links {
        if i >= |a| { assert (a + b)[i] == b[i - |a|]; }
      }
    }
    if |a| > 0 {
      assert (a + b)[0] == a[0] && (a + b)[1..] == a[1..] + b;
      ParentsOfAppend(links, a[1..], b, n);
    } else {
      assert a + b == b;
    }
  }

  /** Two link arenas that agree on every listed handle give the same children and parents. */
  lemma {:induction false} NeighboursFrame(links: map<nat, Link>, links': map<nat, Link>, items: Entries, n: NodeRef)
    requires Known(links, items) && Known(links', items)
    requires forall i | 0 <= i < |items| :: links[items[i].1] == links'[items[i].1]
    ensures ChildrenOf(links, items, n) == ChildrenOf(links', items, n)
    ensures ParentsOf(links, items, n) == ParentsOf(links', items, n)
    ensures FarEnds(links, items, n) == FarEnds(links', items, n)
  {
    if |items| > 0 {
      NeighboursFrame(links, links', items[1..], n);
    }
  }

  /** When every listed link has `n` at exactly one end, each link is counted once, as a child or as a parent. */
  lemma {:induction false} ChildrenParentsPartition(links: map<nat, Link>, items: Entries, n: NodeRef)
    requires Known(links, items) && Incident(links, items, n)
    ensures |ChildrenOf(links, items, n)| + |ParentsOf(links, items, n)| == |items|
  {
    if |items| > 0 {
      assert Incident(links, items[1..], n) by {
        forall i | 0 <= i < |items[1..]| ensures var l := links[items[1..][i].1]; (l.parent == n) != (l.child == n) {
          assert items[1..][i] == items[i + 1];
        }
      }
      ChildrenParentsPartition(links, items[1..], n);
    }
  }

  /** The residue's `links` items all name stored links. */
  predicate LinksKnown(g: Graph, h: nat) {
    Known(g.links, Items(Table(g, LinksOf(ResidueNode(h)))))
  }

  /** The residue's `substituent_links` items all name stored links. */
  predicate SubstituentLinksKnown(g: Graph, h: nat) {
    Known(g.links, Items(Table(g, SubstituentLinksOf(h))))
  }

  /** `Monosaccharide.children()` */
  function Children(g: Graph, h: nat): seq<Neighbour>
    requires LinksKnown(g, h)
  {
    ChildrenOf(g.links, Items(Table(g, LinksOf(ResidueNode(h)))), ResidueNode(h))
  }

  /** `Monosaccharide.parents()` */
  function Parents(g: Graph, h: nat): seq<Neighbour>
    requires LinksKnown(g, h)
  {
    ParentsOf(g.links, Items(Table(g, LinksOf(ResidueNode(h)))), ResidueNode(h))
  }

  /** `Monosaccharide.substituents()`: (position, substituent) for each substituent link, in `items()` order. */
  function Substituents(g: Graph, h: nat): seq<Neighbour>
    requires SubstituentLinksKnown(g, h)
  {
    FarEnds(g.links, Items(Table(g, SubstituentLinksOf(h))), ResidueNode(h))
  }

  /** `Monosaccharide.order(include_substituents)`: the number of children, plus the substituent links when asked for. */
  function Order(g: Graph, h: nat, includeSubstituents: bool): nat
    requires LinksKnown(g, h)
  {
    |Children(g, h)| + (if includeSubstituents then Len(Table(g, SubstituentLinksOf(h))) else 0)
  }

  /**
   * Everything filed with a residue is a child or a parent: when every link
   * in its `links` has the residue at exactly one end, the order without
   * substituents plus the number of parents is the number of links.
   */
  lemma OrderCountsLinks(g: Graph, h: nat)
    requires LinksKnown(g, h) && Incident(g.links, Items(Table(g, LinksOf(ResidueNode(h)))), ResidueNode(h))
    ensures Order(g, h, false) + |Parents(g, h)| == Len(Table(g, LinksOf(ResidueNode(h))))
  {
    ChildrenParentsPartition(g.links, Items(Table(g, LinksOf(ResidueNode(h)))), ResidueNode(h));
    LenIsItemCount(Table(g, LinksOf(ResidueNode(h))));
  }

  /** Substituent links count once each towards the order. */
  lemma OrderCountsSubstituents(g: Graph, h: nat)
    requires LinksKnown(g, h) && SubstituentLinksKnown(g, h)
    ensures Order(g, h, true) == Order(g, h, false) + |Substituents(g, h)|
  {
    LenIsItemCount(Table(g, SubstituentLinksOf(h)));
  }

  // ---------------------------------------------------------------------------
  // Compositions

  /** The sum of the compositions of the listed nodes. */
  function SumCompositions(g: Graph, ns: seq<Neighbour>): Composition {
    if |ns| == 0 then EmptyComposition else Add(CompositionOf(g, ns[0].1), SumCompositions(g, ns[1..]))
  }

  lemma {:induction false} SumCompositionsAppend(g: Graph, a: seq<Neighbour>, b: seq<Neighbour>)
    ensures SumCompositions(g, a + b) == Add(SumCompositions(g, a), SumCompositions(g, b))
  {
    if |a| > 0 {
      assert (a + b)[0] == a[0] && (a + b)[1..] == a[1..] + b;
      SumCompositionsAppend(g, a[1..], b);
      AddAssociates(CompositionOf(g, a[0].1), SumCompositions(g, a[1..]), SumCompositions(g, b));
    } else {
      assert a + b == b;
      AddEmpty(SumCompositions(g, b));
      AddCommutes(EmptyComposition, SumCompositions(g, b));
    }
  }

  /** Only the compositions of the listed nodes count. */
  lemma {:induction false} SumCompositionsFrame(g: Graph, g': Graph, ns: seq<Neighbour>)
    requires forall i | 0 <= i < |ns| :: CompositionOf(g, ns[i].1) == CompositionOf(g', ns[i].1)
    ensures SumCompositions(g, ns) == SumCompositions(g', ns)
  {
    if |ns| > 0 {
      SumCompositionsFrame(g, g', ns[1..]);
    }
  }

  /**
   * `ReducedEnd.total_composition()`: its own composition plus that of each
   * child hanging from it. A substituent's own total is its composition.
   */
  function ReducedEndTotal(g: Graph, e: nat): Composition {
    var items := Items(Table(g, LinksOf(ReducedEndNode(e))));
    if Known(g.links, items) then
      Add(CompositionOf(g, ReducedEndNode(e)), SumCompositions(g, ChildrenOf(g.links, items, ReducedEndNode(e))))
    else CompositionOf(g, ReducedEndNode(e))
  }

  /**
   * `Monosaccharide.total_composition()`: the residue's composition, plus
   * each substituent's, plus the reduced end's total when the residue is
   * reduced.
   */
  function TotalComposition(g: Graph, h: nat): Composition
    requires h in g.residues && SubstituentLinksKnown(g, h)
  {
    var own := Add(CompositionOf(g, ResidueNode(h)), SumCompositions(g, Substituents(g, h)));
    match ReducingEndOf(Mods(g, h))
    case None => own
    case Some(e) => Add(own, ReducedEndTotal(g, e))
  }

  // ---------------------------------------------------------------------------
  // How the edits move the queries

  /** Every handle in the items of a table that holds only handles below `next` is below `next`. */
  lemma ItemsBelow(m: Slots, next: nat)
    requires TableOk(m, next)
    ensures forall i | 0 <= i < |Items(m)| :: Items(m)[i].1 < next
  {
    forall i | 0 <= i < |Items(m)| ensures Items(m)[i].1 < next {
      var (p, k) := Items(m)[i];
      ValuesAtIff(Items(m), p, k);
      ItemsAt(m, p);
    }
  }

  /** A handle inserted among known handles is known when it is stored. */
  lemma KnownInsert(links: map<nat, Link>, items: Entries, i: nat, p: Position, k: nat)
    requires i <= |items| && k in links && forall j | 0 <= j < |items| :: items[j].1 in links
    ensures Known(links, items[..i] + [(p, k)] + items[i..])
  {
    var items' := items[..i] + [(p, k)] + items[i..];
    forall j | 0 <= j < |items'| ensures items'[j].1 in links {
      if j < i { assert items'[j] == items[j]; }
      else if j > i { assert items'[j] == items[j - 1]; }
    }
  }

  /**
   * Inserting one more link handle anywhere into a list of items adds one
   * child (or one parent) exactly when the new link's child (parent) is not
   * the node itself; otherwise that query is unchanged.
   */
  lemma {:induction false} InsertNeighbour(links: map<nat, Link>, links': map<nat, Link>, items: Entries, i: nat,
                                           p: Position, k: nat, n: NodeRef)
    requires i <= |items| && Known(links, items) && k in links'
    requires forall j | 0 <= j < |items| :: items[j].1 in links' && links'[items[j].1] == links[items[j].1]
    ensures var items' := items[..i] + [(p, k)] + items[i..];
      Known(links', items') &&
      |ChildrenOf(links', items', n)| == |ChildrenOf(links, items, n)| + (if links'[k].child != n then 1 else 0) &&
      |ParentsOf(links', items', n)| == |ParentsOf(links, items, n)| + (if links'[k].parent != n then 1 else 0) &&
      (links'[k].child == n ==> ChildrenOf(links', items', n) == ChildrenOf(links, items, n)) &&
      (links'[k].parent == n ==> ParentsOf(links', items', n) == ParentsOf(links, items, n))
  {
    var items' := items[..i] + [(p, k)] + items[i..];
    KnownInsert(links', items, i, p, k);
    if i == 0 {
      assert items'[0] == (p, k) && items'[1..] == items;
      NeighboursFrame(links, links', items, n);
    } else {
      var tail := items[1..];
      assert items'[0] == items[0];
      assert items'[1..] == tail[..i - 1] + [(p, k)] + tail[i - 1..];
      assert forall j | 0 <= j < |tail| :: tail[j] == items[j + 1];
      InsertNeighbour(links, links', tail, i - 1, p, k, n);
    }
  }

  /**
   * Filing a fresh handle `k` in a table whose handles are all older: the new
   * link counts once among the node's children or parents, as its ends say.
   */
  lemma InsertFresh(links: map<nat, Link>, m: Slots, next: nat, k: nat, q: Position, l: Link, n: NodeRef)
    requires TableOk(m, next) && next <= k && Known(links, Items(m))
    ensures var (links', items, items') := (links[k := l], Items(m), Items(Put(m, q, k)));
      Known(links', items') &&
      |ChildrenOf(links', items', n)| == |ChildrenOf(links, items, n)| + (if l.child != n then 1 else 0) &&
      |ParentsOf(links', items', n)| == |ParentsOf(links, items, n)| + (if l.parent != n then 1 else 0) &&
      (l.child == n ==> ChildrenOf(links', items', n) == ChildrenOf(links, items, n)) &&
      (l.parent == n ==> ParentsOf(links', items', n) == ParentsOf(links, items, n))
  {
    ItemsPutSplit(m, q, k);
    ItemsBelow(m, next);
    var i :| 0 <= i <= |Items(m)| && Items(Put(m, q, k)) == Items(m)[..i] + [(q, k)] + Items(m)[i..];
    InsertNeighbour(links, links[k := l], Items(m), i, q, k, n);
  }

  /** Inserting one more link handle into a list of items inserts its far end at the same place. */
  lemma {:induction false} InsertFar(links: map<nat, Link>, links': map<nat, Link>, items: Entries, i: nat,
                                     p: Position, k: nat, n: NodeRef)
    requires i <= |items| && Known(links, items) && k in links'
    requires forall j | 0 <= j < |items| :: items[j].1 in links' && links'[items[j].1] == links[items[j].1]
    ensures var items' := items[..i] + [(p, k)] + items[i..];
      Known(links', items') &&
      FarEnds(links', items', n) == FarEnds(links, items, n)[..i] + [(p, Far(links'[k], n))] + FarEnds(links, items, n)[i..]
  {
    var items' := items[..i] + [(p, k)] + items[i..];
    KnownInsert(links', items, i, p, k);
    if i == 0 {
      assert items'[0] == (p, k) && items'[1..] == items;
      NeighboursFrame(links, links', items, n);
    } else {
      var tail := items[1..];
      assert items'[0] == items[0];
      assert items'[1..] == tail[..i - 1] + [(p, k)] + tail[i - 1..];
      assert forall j | 0 <= j < |tail| :: tail[j] == items[j + 1];
      InsertFar(links, links', tail, i - 1, p, k, n);
      var head := (items[0].0, Far(links[items[0].1], n));
      var f, ft := FarEnds(links, items, n), FarEnds(links, tail, n);
      assert f == [head] + ft;
      assert f[..i] == [head] + ft[..i - 1];
      assert f[i..] == ft[i - 1..];
      assert FarEnds(links', items', n) == [head] + FarEnds(links', items'[1..], n);
    }
  }

  /** Filing a fresh handle `k` adds its far end to the far ends, and keeps the rest. */
  lemma InsertFreshFar(links: map<nat, Link>, m: Slots, next: nat, k: nat, q: Position, l: Link, n: NodeRef)
    requires TableOk(m, next) && next <= k && Known(links, Items(m))
    ensures var (links', items, items') := (links[k := l], Items(m), Items(Put(m, q, k)));
      Known(links', items') &&
      exists i | 0 <= i <= |items| ::
        FarEnds(links', items', n) == FarEnds(links, items, n)[..i] + [(q, Far(l, n))] + FarEnds(links, items, n)[i..]
  {
    var links', items := links[k := l], Items(m);
    ItemsPutSplit(m, q, k);
    OlderItemsAgree(links, m, next, k, l);
    var i :| 0 <= i <= |items| && Items(Put(m, q, k)) == items[..i] + [(q, k)] + items[i..];
    InsertFar(links, links', items, i, q, k, n);
    assert links'[k] == l;
  }

  /**
   * A new link filed, at `q`, in a table of `n` that holds only older
   * handles: the link counts once among `n`'s children or parents there, as
   * its ends say.
   */
  lemma NewLinkNeighbours(g: Graph, l: Link, t: TableId, q: Position, n: NodeRef)
    requires !l.attached && l.parent != l.child
    requires TableOk(Table(g, t), g.next) && Known(g.links, Items(Table(g, t)))
    requires Table(NewLink(g, l), t) == Put(Table(g, t), q, g.next)
    ensures var (r, items, items') := (NewLink(g, l), Items(Table(g, t)), Items(Table(NewLink(g, l), t)));
      Known(r.links, items') &&
      |ChildrenOf(r.links, items', n)| == |ChildrenOf(g.links, items, n)| + (if l.child != n then 1 else 0) &&
      |ParentsOf(r.links, items', n)| == |ParentsOf(g.links, items, n)| + (if l.parent != n then 1 else 0) &&
      (l.child == n ==> ChildrenOf(r.links, items', n) == ChildrenOf(g.links, items, n))
  {
    assert NewLink(g, l).links == g.links[g.next := l.(attached := true)];
    InsertFresh(g.links, Table(g, t), g.next, g.next, q, l.(attached := true), n);
  }

  /** Linking a child below the residue adds one to its order, whether or not substituents are counted. */
  lemma AddMonosaccharideOrder(g: Graph, h: nat, c: nat, p: Position, maxOccupancy: int, cp: Position,
                               parentLoss: Option<Composition>, childLoss: Option<Composition>, linkId: int, withSubstituents: bool)
    requires h in g.residues && c in g.residues && h != c
    requires AddMonosaccharide(g, h, c, p, maxOccupancy, cp, parentLoss, childLoss, linkId).Ok?
    requires TableOk(Table(g, LinksOf(ResidueNode(h))), g.next) && LinksKnown(g, h)
    ensures var r := AddMonosaccharide(g, h, c, p, maxOccupancy, cp, parentLoss, childLoss, linkId).value;
      LinksKnown(r, h) && Order(r, h, withSubstituents) == Order(g, h, withSubstituents) + 1
  {
    var l := GlycosidicLink(h, c, p, cp, parentLoss, childLoss, linkId);
    var g1 := Stored(g, l);
    ApplyLinkTable(g1, g.next, LinksOf(ResidueNode(h)));
    ApplyLinkTable(g1, g.next, SubstituentLinksOf(h));
    NewLinkNeighbours(g, l, LinksOf(ResidueNode(h)), p, ResidueNode(h));
  }

  /** Linking a residue below a parent adds one parent to it and leaves its children as they were. */
  lemma AddMonosaccharideParents(g: Graph, h: nat, c: nat, p: Position, maxOccupancy: int, cp: Position,
                                 parentLoss: Option<Composition>, childLoss: Option<Composition>, linkId: int)
    requires h in g.residues && c in g.residues && h != c
    requires AddMonosaccharide(g, h, c, p, maxOccupancy, cp, parentLoss, childLoss, linkId).Ok?
    requires TableOk(Table(g, LinksOf(ResidueNode(c))), g.next) && LinksKnown(g, c)
    ensures var r := AddMonosaccharide(g, h, c, p, maxOccupancy, cp, parentLoss, childLoss, linkId).value;
      LinksKnown(r, c) && Children(r, c) == Children(g, c) && |Parents(r, c)| == |Parents(g, c)| + 1
  {
    var l := GlycosidicLink(h, c, p, cp, parentLoss, childLoss, linkId);
    ApplyLinkTable(Stored(g, l), g.next, LinksOf(ResidueNode(c)));
    NewLinkNeighbours(g, l, LinksOf(ResidueNode(c)), cp, ResidueNode(c));
  }

  /** The stored links agree on every handle of a table of older handles. */
  lemma OlderItemsAgree(links: map<nat, Link>, m: Slots, next: nat, k: nat, l: Link)
    requires TableOk(m, next) && next <= k && Known(links, Items(m))
    ensures Known(links[k := l], Items(m))
    ensures forall j | 0 <= j < |Items(m)| :: links[k := l][Items(m)[j].1] == links[Items(m)[j].1]
  {
    ItemsBelow(m, next);
  }

  /**
   * A step that files a fresh handle `k` in the residue's
   * `substituent_links` only, and stores it under `k`, leaves the children
   * and parents alone and adds one to the order counted with substituents.
   */
  lemma OrderAfterSubstituentFiled(g: Graph, r: Graph, h: nat, p: Position, k: nat, l: Link)
    requires TableOk(Table(g, LinksOf(ResidueNode(h))), g.next) && LinksKnown(g, h)
    requires Valid(Table(g, SubstituentLinksOf(h)))
    requires r.links == g.links[k := l] && g.next <= k
    requires Table(r, LinksOf(ResidueNode(h))) == Table(g, LinksOf(ResidueNode(h)))
    requires Table(r, SubstituentLinksOf(h)) == Put(Table(g, SubstituentLinksOf(h)), p, k)
    ensures LinksKnown(r, h) && Children(r, h) == Children(g, h) && Parents(r, h) == Parents(g, h) &&
      Order(r, h, false) == Order(g, h, false) && Order(r, h, true) == Order(g, h, true) + 1
  {
    var m := Table(g, LinksOf(ResidueNode(h)));
    OlderItemsAgree(g.links, m, g.next, k, l);
    NeighboursFrame(g.links, r.links, Items(m), ResidueNode(h));
    LenPut(Table(g, SubstituentLinksOf(h)), p, k);
  }

  /** The same step inserts the far end of the new link, at its position, into the substituents. */
  lemma SubstituentsAfterFiled(g: Graph, r: Graph, h: nat, p: Position, k: nat, l: Link)
    requires TableOk(Table(g, SubstituentLinksOf(h)), g.next) && SubstituentLinksKnown(g, h)
    requires r.links == g.links[k := l] && g.next <= k
    requires Table(r, SubstituentLinksOf(h)) == Put(Table(g, SubstituentLinksOf(h)), p, k)
    ensures SubstituentLinksKnown(r, h) &&
      exists i | 0 <= i <= |Substituents(g, h)| ::
        Substituents(r, h) == Substituents(g, h)[..i] + [(p, Far(l, ResidueNode(h)))] + Substituents(g, h)[i..]
  {
    var m := Table(g, SubstituentLinksOf(h));
    InsertFreshFar(g.links, m, g.next, k, p, l, ResidueNode(h));
    assert Items(Table(r, SubstituentLinksOf(h))) == Items(Put(m, p, k));
    var i :| 0 <= i <= |Items(m)| && FarEnds(r.links, Items(Put(m, p, k)), ResidueNode(h)) ==
      FarEnds(g.links, Items(m), ResidueNode(h))[..i] + [(p, Far(l, ResidueNode(h)))] + FarEnds(g.links, Items(m), ResidueNode(h))[i..];
    assert Substituents(r, h) == Substituents(g, h)[..i] + [(p, Far(l, ResidueNode(h)))] + Substituents(g, h)[i..];
  }

  /** Adding a substituent files its link, under the handle after the new substituent's, at `p` in `substituent_links`. */
  lemma AddSubstituentFiled(g: Graph, h: nat, name: string, p: Position, maxOccupancy: int, cp: Position,
                            parentLoss: Option<Composition>, childLoss: Option<Composition>, subId: int, linkId: int)
    requires h in g.residues && AddSubstituent(g, h, name, p, maxOccupancy, cp, parentLoss, childLoss, subId, linkId).Ok?
    ensures Table(AddSubstituent(g, h, name, p, maxOccupancy, cp, parentLoss, childLoss, subId, linkId).value, SubstituentLinksOf(h)) ==
      Put(Table(g, SubstituentLinksOf(h)), p, g.next + 1)
  {
    AddSubstituentIs(g, h, name, p, maxOccupancy, cp, parentLoss, childLoss, subId, linkId);
    NewSubstituentTable(g, name, subId, SubstituentLink(ResidueNode(h), g.next, p, cp, parentLoss, childLoss, linkId), SubstituentLinksOf(h));
  }

  /**
   * Adding a substituent leaves the residue's children and parents alone and
   * adds one to its order counted with substituents.
   */
  lemma AddSubstituentOrder(g: Graph, h: nat, name: string, p: Position, maxOccupancy: int, cp: Position,
                            parentLoss: Option<Composition>, childLoss: Option<Composition>, subId: int, linkId: int)
    requires h in g.residues && AddSubstituent(g, h, name, p, maxOccupancy, cp, parentLoss, childLoss, subId, linkId).Ok?
    requires TableOk(Table(g, LinksOf(ResidueNode(h))), g.next) && LinksKnown(g, h)
    requires Valid(Table(g, SubstituentLinksOf(h)))
    ensures var r := AddSubstituent(g, h, name, p, maxOccupancy, cp, parentLoss, childLoss, subId, linkId).value;
      LinksKnown(r, h) && Children(r, h) == Children(g, h) && Parents(r, h) == Parents(g, h) &&
      Order(r, h, false) == Order(g, h, false) && Order(r, h, true) == Order(g, h, true) + 1
  {
    var r := AddSubstituent(g, h, name, p, maxOccupancy, cp, parentLoss, childLoss, subId, linkId).value;
    var l := SubstituentLink(ResidueNode(h), g.next, p, cp, parentLoss, childLoss, linkId);
    AddSubstituentLinks(g, h, name, p, maxOccupancy, cp, parentLoss, childLoss, subId, linkId);
    AddSubstituentFiled(g, h, name, p, maxOccupancy, cp, parentLoss, childLoss, subId, linkId);
    AddSubstituentTables(g, h, name, p, maxOccupancy, cp, parentLoss, childLoss, subId, linkId, LinksOf(ResidueNode(h)));
    OrderAfterSubstituentFiled(g, r, h, p, g.next + 1, l.(attached := true));
  }

  /** Adding a substituent inserts it, at its position, into what `substituents()` yields, and keeps the rest. */
  lemma AddSubstituentSubstituents(g: Graph, h: nat, name: string, p: Position, maxOccupancy: int, cp: Position,
                                   parentLoss: Option<Composition>, childLoss: Option<Composition>, subId: int, linkId: int)
    requires h in g.residues && AddSubstituent(g, h, name, p, maxOccupancy, cp, parentLoss, childLoss, subId, linkId).Ok?
    requires TableOk(Table(g, SubstituentLinksOf(h)), g.next) && SubstituentLinksKnown(g, h)
    ensures var r := AddSubstituent(g, h, name, p, maxOccupancy, cp, parentLoss, childLoss, subId, linkId).value;
      SubstituentLinksKnown(r, h) &&
      exists i | 0 <= i <= |Substituents(g, h)| ::
        Substituents(r, h) == Substituents(g, h)[..i] + [(p, SubstituentNode(g.next))] + Substituents(g, h)[i..]
  {
    var r := AddSubstituent(g, h, name, p, maxOccupancy, cp, parentLoss, childLoss, subId, linkId).value;
    var l := SubstituentLink(ResidueNode(h), g.next, p, cp, parentLoss, childLoss, linkId);
    AddSubstituentLinks(g, h, name, p, maxOccupancy, cp, parentLoss, childLoss, subId, linkId);
    AddSubstituentFiled(g, h, name, p, maxOccupancy, cp, parentLoss, childLoss, subId, linkId);
    SubstituentsAfterFiled(g, r, h, p, g.next + 1, l.(attached := true));
    assert Far(l.(attached := true), ResidueNode(h)) == SubstituentNode(g.next);
  }

  /** Every listed node is a substituent made before `next`. */
  predicate OlderSubstituents(ns: seq<Neighbour>, next: nat) {
    forall i | 0 <= i < |ns| :: ns[i].1.SubstituentNode? && ns[i].1.h < next
  }

  /** An inserted node adds its composition to the sum, wherever it is inserted. */
  lemma {:induction false} SumInsert(g: Graph, a: seq<Neighbour>, x: Neighbour, b: seq<Neighbour>)
    ensures SumCompositions(g, a + [x] + b) == Add(SumCompositions(g, a + b), CompositionOf(g, x.1))
  {
    var c := CompositionOf(g, x.1);
    if |a| == 0 {
      assert a + [x] + b == [x] + b && ([x] + b)[1..] == b && a + b == b;
      AddCommutes(c, SumCompositions(g, b));
    } else {
      assert (a + [x] + b)[0] == a[0] && (a + [x] + b)[1..] == a[1..] + [x] + b;
      assert (a + b)[0] == a[0] && (a + b)[1..] == a[1..] + b;
      SumInsert(g, a[1..], x, b);
      AddAssociates(CompositionOf(g, a[0].1), SumCompositions(g, a[1..] + b), c);
    }
  }

  /** Adding a substituent changes the compositions of the residue and of the new substituent only. */
  lemma AddSubstituentOthers(g: Graph, h: nat, name: string, p: Position, maxOccupancy: int, cp: Position,
                             parentLoss: Option<Composition>, childLoss: Option<Composition>, subId: int, linkId: int, s: seq<Neighbour>)
    requires h in g.residues && AddSubstituent(g, h, name, p, maxOccupancy, cp, parentLoss, childLoss, subId, linkId).Ok?
    requires OlderSubstituents(s, g.next)
    ensures var r := AddSubstituent(g, h, name, p, maxOccupancy, cp, parentLoss, childLoss, subId, linkId).value;
      forall j | 0 <= j < |s| :: CompositionOf(g, s[j].1) == CompositionOf(r, s[j].1)
  {
    forall j | 0 <= j < |s|
      ensures CompositionOf(g, s[j].1) == CompositionOf(AddSubstituent(g, h, name, p, maxOccupancy, cp, parentLoss, childLoss, subId, linkId).value, s[j].1)
    {
      AddSubstituentComposition(g, h, name, p, maxOccupancy, cp, parentLoss, childLoss, subId, linkId, s[j].1);
    }
  }

  /**
   * Adding a substituent files its link in the residue's `substituent_links`
   * and the new substituent's `links` and in no other table.
   */
  lemma AddSubstituentTables(g: Graph, h: nat, name: string, p: Position, maxOccupancy: int, cp: Position,
                             parentLoss: Option<Composition>, childLoss: Option<Composition>, subId: int, linkId: int, t: TableId)
    requires h in g.residues && AddSubstituent(g, h, name, p, maxOccupancy, cp, parentLoss, childLoss, subId, linkId).Ok?
    requires t != SubstituentLinksOf(h) && t != LinksOf(SubstituentNode(g.next))
    ensures Table(AddSubstituent(g, h, name, p, maxOccupancy, cp, parentLoss, childLoss, subId, linkId).value, t) == Table(g, t)
  {
    var g1 := NewSubstituent(g, name, subId);
    var g2 := Stored(g1, SubstituentLink(ResidueNode(h), g.next, p, cp, parentLoss, childLoss, linkId));
    ApplyLinkTable(g2, g1.next, t);
  }

  /**
   * A reduced end's total survives a step that files a new handle elsewhere
   * and changes no composition of the reduced end or of an older substituent.
   */
  lemma ReducedEndUntouched(g: Graph, r: Graph, e: nat, k: nat, l: Link)
    requires var (n, items) := (ReducedEndNode(e), Items(Table(g, LinksOf(ReducedEndNode(e)))));
      TableOk(Table(g, LinksOf(n)), g.next) && Known(g.links, items) &&
      OlderSubstituents(ChildrenOf(g.links, items, n), g.next)
    requires Table(r, LinksOf(ReducedEndNode(e))) == Table(g, LinksOf(ReducedEndNode(e)))
    requires r.links == g.links[k := l] && g.next <= k
    requires CompositionOf(r, ReducedEndNode(e)) == CompositionOf(g, ReducedEndNode(e))
    requires forall s: nat | s < g.next :: CompositionOf(r, SubstituentNode(s)) == CompositionOf(g, SubstituentNode(s))
    ensures ReducedEndTotal(r, e) == ReducedEndTotal(g, e)
  {
    var (n, items) := (ReducedEndNode(e), Items(Table(g, LinksOf(ReducedEndNode(e)))));
    OlderItemsAgree(g.links, Table(g, LinksOf(n)), g.next, k, l);
    NeighboursFrame(g.links, r.links, items, n);
    var cs := ChildrenOf(g.links, items, n);
    assert forall j | 0 <= j < |cs| :: cs[j].1 == SubstituentNode(cs[j].1.h);
    SumCompositionsFrame(g, r, cs);
  }

  /**
   * Adding a substituent to a residue does not touch the total of a reduced
   * end whose children are older substituents.
   */
  lemma AddSubstituentReducedEnd(g: Graph, h: nat, name: string, p: Position, maxOccupancy: int, cp: Position,
                                 parentLoss: Option<Composition>, childLoss: Option<Composition>, subId: int, linkId: int, e: nat)
    requires h in g.residues && AddSubstituent(g, h, name, p, maxOccupancy, cp, parentLoss, childLoss, subId, linkId).Ok?
    requires var items := Items(Table(g, LinksOf(ReducedEndNode(e))));
      TableOk(Table(g, LinksOf(ReducedEndNode(e))), g.next) && Known(g.links, items) &&
      OlderSubstituents(ChildrenOf(g.links, items, ReducedEndNode(e)), g.next)
    ensures ReducedEndTotal(AddSubstituent(g, h, name, p, maxOccupancy, cp, parentLoss, childLoss, subId, linkId).value, e) ==
            ReducedEndTotal(g, e)
  {
    var r := AddSubstituent(g, h, name, p, maxOccupancy, cp, parentLoss, childLoss, subId, linkId).value;
    var l := SubstituentLink(ResidueNode(h), g.next, p, cp, parentLoss, childLoss, linkId);
    AddSubstituentLinks(g, h, name, p, maxOccupancy, cp, parentLoss, childLoss, subId, linkId);
    AddSubstituentTables(g, h, name, p, maxOccupancy, cp, parentLoss, childLoss, subId, linkId, LinksOf(ReducedEndNode(e)));
    AddSubstituentComposition(g, h, name, p, maxOccupancy, cp, parentLoss, childLoss, subId, linkId, ReducedEndNode(e));
    AddSubstituentOlder(g, h, name, p, maxOccupancy, cp, parentLoss, childLoss, subId, linkId);
    ReducedEndUntouched(g, r, e, g.next + 1, l.(attached := true));
  }

  /** The stored links after adding a substituent: one more, under the handle after the new substituent's. */
  lemma AddSubstituentLinks(g: Graph, h: nat, name: string, p: Position, maxOccupancy: int, cp: Position,
                            parentLoss: Option<Composition>, childLoss: Option<Composition>, subId: int, linkId: int)
    requires h in g.residues && AddSubstituent(g, h, name, p, maxOccupancy, cp, parentLoss, childLoss, subId, linkId).Ok?
    ensures AddSubstituent(g, h, name, p, maxOccupancy, cp, parentLoss, childLoss, subId, linkId).value.links ==
      g.links[g.next + 1 := SubstituentLink(ResidueNode(h), g.next, p, cp, parentLoss, childLoss, linkId).(attached := true)]
  {
    AddSubstituentIs(g, h, name, p, maxOccupancy, cp, parentLoss, childLoss, subId, linkId);
    NewSubstituentLinks(g, name, subId, SubstituentLink(ResidueNode(h), g.next, p, cp, parentLoss, childLoss, linkId));
  }

  /** Adding a substituent leaves the composition of every older substituent alone. */
  lemma AddSubstituentOlder(g: Graph, h: nat, name: string, p: Position, maxOccupancy: int, cp: Position,
                            parentLoss: Option<Composition>, childLoss: Option<Composition>, subId: int, linkId: int)
    requires h in g.residues && AddSubstituent(g, h, name, p, maxOccupancy, cp, parentLoss, childLoss, subId, linkId).Ok?
    ensures var r := AddSubstituent(g, h, name, p, maxOccupancy, cp, parentLoss, childLoss, subId, linkId).value;
      forall s: nat | s < g.next :: CompositionOf(r, SubstituentNode(s)) == CompositionOf(g, SubstituentNode(s))
  {
    var r := AddSubstituent(g, h, name, p, maxOccupancy, cp, parentLoss, childLoss, subId, linkId).value;
    forall s: nat | s < g.next ensures CompositionOf(r, SubstituentNode(s)) == CompositionOf(g, SubstituentNode(s)) {
      AddSubstituentComposition(g, h, name, p, maxOccupancy, cp, parentLoss, childLoss, subId, linkId, SubstituentNode(s));
    }
  }

  /** The rearrangement behind the totals: a residue term less one loss, a sum grown by one term less the other. */
  lemma ShiftedTotal(a: Composition, s: Composition, re: Composition, added: Composition, parentLoss: Composition, childLoss: Composition)
    ensures Add(Sub(a, parentLoss), Add(s, Sub(added, childLoss))) == Sub(Sub(Add(Add(a, s), added), parentLoss), childLoss)
    ensures Add(Add(Sub(a, parentLoss), Add(s, Sub(added, childLoss))), re) ==
            Sub(Sub(Add(Add(Add(a, s), re), added), parentLoss), childLoss)
  {
  }

  /** Inserting a node into a list whose other nodes keep their compositions adds the new node's composition. */
  lemma SumAfterInsert(g: Graph, r: Graph, s: seq<Neighbour>, i: nat, x: Neighbour)
    requires i <= |s|
    requires forall j | 0 <= j < |s| :: CompositionOf(g, s[j].1) == CompositionOf(r, s[j].1)
    ensures SumCompositions(r, s[..i] + [x] + s[i..]) == Add(SumCompositions(g, s), CompositionOf(r, x.1))
  {
    SumInsert(r, s[..i], x, s[i..]);
    assert s[..i] + s[i..] == s;
    SumCompositionsFrame(g, r, s);
  }

  /**
   * The residue total after one substituent link more: the residue pays the
   * parent loss, the substituents' sum grows by the new one's composition
   * less the child loss, and the reduced end's total stays. Stated for any
   * two graphs related so.
   */
  lemma TotalAfterSubstituent(g: Graph, r: Graph, h: nat, parentLoss: Composition, childLoss: Composition, added: Composition)
    requires h in g.residues && r.residues == g.residues
    requires SubstituentLinksKnown(g, h) && SubstituentLinksKnown(r, h)
    requires SumCompositions(r, Substituents(r, h)) == Add(SumCompositions(g, Substituents(g, h)), Sub(added, childLoss))
    requires CompositionOf(r, ResidueNode(h)) == Sub(CompositionOf(g, ResidueNode(h)), parentLoss)
    requires ReducingEndOf(Mods(g, h)).Some? ==> ReducedEndTotal(r, ReducingEndOf(Mods(g, h)).value) == ReducedEndTotal(g, ReducingEndOf(Mods(g, h)).value)
    ensures TotalComposition(r, h) == Sub(Sub(Add(TotalComposition(g, h), added), parentLoss), childLoss)
  {
    var (a, sum) := (CompositionOf(g, ResidueNode(h)), SumCompositions(g, Substituents(g, h)));
    assert Mods(r, h) == Mods(g, h);
    var e := ReducingEndOf(Mods(g, h));
    if e.None? {
      ShiftedTotal(a, sum, EmptyComposition, added, parentLoss, childLoss);
    } else {
      ShiftedTotal(a, sum, ReducedEndTotal(g, e.value), added, parentLoss, childLoss);
    }
  }

  /**
   * Adding a substituent adds its composition to the residue's total and
   * takes off the two losses of the link that holds it.
   */
  lemma AddSubstituentTotal(g: Graph, h: nat, name: string, p: Position, maxOccupancy: int, cp: Position,
                            parentLoss: Option<Composition>, childLoss: Option<Composition>, subId: int, linkId: int)
    requires h in g.residues && AddSubstituent(g, h, name, p, maxOccupancy, cp, parentLoss, childLoss, subId, linkId).Ok?
    requires TableOk(Table(g, SubstituentLinksOf(h)), g.next) && SubstituentLinksKnown(g, h)
    requires OlderSubstituents(Substituents(g, h), g.next)
    requires ReducingEndOf(Mods(g, h)).Some? ==>
      var (n, items) := (ReducedEndNode(ReducingEndOf(Mods(g, h)).value), Items(Table(g, LinksOf(ReducedEndNode(ReducingEndOf(Mods(g, h)).value)))));
      TableOk(Table(g, LinksOf(n)), g.next) && Known(g.links, items) && OlderSubstituents(ChildrenOf(g.links, items, n), g.next)
    ensures var r := AddSubstituent(g, h, name, p, maxOccupancy, cp, parentLoss, childLoss, subId, linkId).value;
      SubstituentLinksKnown(r, h) &&
      TotalComposition(r, h) ==
        Sub(Sub(Add(TotalComposition(g, h), SubstituentComposition(name)), LossOr(parentLoss, Hydrogen)), LossOr(childLoss, Hydrogen))
  {
    var r := AddSubstituent(g, h, name, p, maxOccupancy, cp, parentLoss, childLoss, subId, linkId).value;
    AddSubstituentSubstituents(g, h, name, p, maxOccupancy, cp, parentLoss, childLoss, subId, linkId);
    var s := Substituents(g, h);
    var x := (p, SubstituentNode(g.next));
    var i :| 0 <= i <= |s| && Substituents(r, h) == s[..i] + [x] + s[i..];
    AddSubstituentOthers(g, h, name, p, maxOccupancy, cp, parentLoss, childLoss, subId, linkId, s);
    AddSubstituentComposition(g, h, name, p, maxOccupancy, cp, parentLoss, childLoss, subId, linkId, x.1);
    AddSubstituentComposition(g, h, name, p, maxOccupancy, cp, parentLoss, childLoss, subId, linkId, ResidueNode(h));
    if ReducingEndOf(Mods(g, h)).Some? {
      AddSubstituentReducedEnd(g, h, name, p, maxOccupancy, cp, parentLoss, childLoss, subId, linkId, ReducingEndOf(Mods(g, h)).value);
    }
    SumAfterInsert(g, r, s, i, x);
    TotalAfterSubstituent(g, r, h, LossOr(parentLoss, Hydrogen), LossOr(childLoss, Hydrogen), SubstituentComposition(name));
  }
}
