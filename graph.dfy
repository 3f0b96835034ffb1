/**
 * The object graph of pygly2/structure: monosaccharide residues, substituents
 * and reduced ends joined by links. Python objects refer to each other
 * directly; here every object lives in an arena under a handle, and a link
 * names its two endpoints by handle. The parts of a node that links change —
 * its link tables (ordered multimaps from backbone position to link) and its
 * elemental composition — are kept in two maps of the graph, keyed by node,
 * so that a link operation is a pair of map updates.
 */
module Graphs {
  import opened Wrappers
  import opened MultiMaps
  import opened Enums
  import opened Compositions

  /** An endpoint of a link: which arena, and the handle in it. */
  datatype NodeRef = ResidueNode(h: nat) | SubstituentNode(h: nat) | ReducedEndNode(h: nat)

  /** An entry of `Monosaccharide.modifications`: a Modification member, or the residue's ReducedEnd object. */
  datatype Modifier = Mod(m: EnumValue) | ReducedMarker(h: nat)

  /** `ring_start` / `ring_end`: an int, a string the parser could not convert (such as `'x'`), or None. */
  datatype RingBound = RingAt(n: int) | RingText(s: string) | RingNone

  /** A branch label assigned by `Glycan.label_branches`: a letter and a depth. */
  datatype Label = Label(key: char, depth: int)

  type Slots = MultiMap<Position, nat>

  /** The scalar attributes of a `Monosaccharide` and its `modifications` table. */
  datatype Residue = Residue(
    id: int,
    anomer: EnumValue,
    configuration: seq<EnumValue>,
    stem: seq<EnumValue>,
    superclass: EnumValue,
    ringStart: RingBound,
    ringEnd: RingBound,
    modifications: MultiMap<Position, Modifier>)

  datatype Substituent = Substituent(id: int, name: string)

  /** `ReducedEnd`: an identity and a valence. */
  datatype ReducedEnd = ReducedEnd(id: int, valence: int)

  /**
   * `Link`: the two endpoints with the position used on each, the
   * compositions each endpoint loses while the bond exists, and whether the
   * bond is currently in place.
   */
  datatype Link = Link(
    id: int,
    parent: NodeRef,
    child: NodeRef,
    parentPosition: Position,
    childPosition: Position,
    parentLoss: Composition,
    childLoss: Composition,
    attached: bool,
    branchLabel: Option<Label>)

  /**
   * The link tables of the source: every node has `links`; a residue also
   * has `substituent_links`.
   */
  datatype TableId = LinksOf(n: NodeRef) | SubstituentLinksOf(h: nat)

  /** All objects of one structure, their link tables and compositions, and the next free handle. */
  datatype Graph = Graph(
    residues: map<nat, Residue>,
    substituents: map<nat, Substituent>,
    reducedEnds: map<nat, ReducedEnd>,
    tables: map<TableId, Slots>,
    compositions: map<NodeRef, Composition>,
    links: map<nat, Link>,
    next: nat)

  const EmptyGraph: Graph := Graph(map[], map[], map[], map[], map[], map[], 0)

  const NoSlots: Slots := MultiMap(map[], [])

  predicate Has(g: Graph, n: NodeRef) {
    match n
    case ResidueNode(h) => h in g.residues
    case SubstituentNode(h) => h in g.substituents
    case ReducedEndNode(h) => h in g.reducedEnds
  }

  /** `node.id` of whatever a link leads to. */
  function NodeId(g: Graph, n: NodeRef): int {
    match n
    case ResidueNode(h) => if h in g.residues then g.residues[h].id else 0
    case SubstituentNode(h) => if h in g.substituents then g.substituents[h].id else 0
    case ReducedEndNode(h) => if h in g.reducedEnds then g.reducedEnds[h].id else 0
  }

  /** A table that was never written is empty, as a fresh `OrderedMultiMap` is. */
  function Table(g: Graph, t: TableId): Slots {
    TableIn(g.tables, t)
  }

  function CompositionOf(g: Graph, n: NodeRef): Composition {
    CompositionIn(g.compositions, n)
  }

  /**
   * The table of `n` that a link to `other` is filed in: a residue files
   * links to substituents in `substituent_links` and every other link in
   * `links`; substituents and reduced ends have only `links`.
   */
  function FilingTable(n: NodeRef, other: NodeRef): TableId {
    if n.ResidueNode? && other.SubstituentNode? then SubstituentLinksOf(n.h) else LinksOf(n)
  }

  function ParentTable(l: Link): TableId { FilingTable(l.parent, l.child) }
  function ChildTable(l: Link): TableId { FilingTable(l.child, l.parent) }

  /** A link table is a well-formed multimap whose handles were all handed out before `next`. */
  predicate TableOk(m: Slots, next: nat) {
    Valid(m) && forall k | k in m.contents :: forall v | v in m.contents[k] :: v < next
  }

  /** Every multimap is well formed, every link's endpoints exist, and every handle is below `next`. */
  predicate Wf(g: Graph) {
    (forall h | h in g.residues :: h < g.next && Valid(g.residues[h].modifications)) &&
    (forall h | h in g.substituents :: h < g.next) &&
    (forall h | h in g.reducedEnds :: h < g.next) &&
    (forall t | t in g.tables :: TableOk(g.tables[t], g.next)) &&
    (forall h | h in g.links :: h < g.next && Has(g, g.links[h].parent) && Has(g, g.links[h].child))
  }

  lemma TableOfWf(g: Graph, t: TableId)
    requires Wf(g)
    ensures TableOk(Table(g, t), g.next)
  {
  }

  /** `m.pop(k, v)` where a missing value leaves the multimap as it is. */
  function PopOrKeep(m: Slots, k: Position, v: nat): Slots {
    match Pop(m, k, v)
    case Ok((s, _)) => s
    case Err(_) => m
  }

  function TableIn(ts: map<TableId, Slots>, t: TableId): Slots {
    if t in ts then ts[t] else NoSlots
  }

  function CompositionIn(cs: map<NodeRef, Composition>, n: NodeRef): Composition {
    if n in cs then cs[n] else EmptyComposition
  }

  /** The tables once link `h` is filed under its positions at both ends. */
  function Filed(ts: map<TableId, Slots>, l: Link, h: nat): map<TableId, Slots> {
    var ts1 := ts[ParentTable(l) := Put(TableIn(ts, ParentTable(l)), l.parentPosition, h)];
    ts1[ChildTable(l) := Put(TableIn(ts1, ChildTable(l)), l.childPosition, h)]
  }

  /** The tables once link `h` is taken out at both ends. */
  function Unfiled(ts: map<TableId, Slots>, l: Link, h: nat): map<TableId, Slots> {
    var ts1 := ts[ParentTable(l) := PopOrKeep(TableIn(ts, ParentTable(l)), l.parentPosition, h)];
    ts1[ChildTable(l) := PopOrKeep(TableIn(ts1, ChildTable(l)), l.childPosition, h)]
  }

  /** The compositions once both endpoints have lost what the bond costs them. */
  function Debited(cs: map<NodeRef, Composition>, l: Link): map<NodeRef, Composition> {
    var cs1 := cs[l.parent := Sub(CompositionIn(cs, l.parent), l.parentLoss)];
    cs1[l.child := Sub(CompositionIn(cs1, l.child), l.childLoss)]
  }

  /** The compositions once both endpoints have their losses back. */
  function Credited(cs: map<NodeRef, Composition>, l: Link): map<NodeRef, Composition> {
    var cs1 := cs[l.parent := Add(CompositionIn(cs, l.parent), l.parentLoss)];
    cs1[l.child := Add(CompositionIn(cs1, l.child), l.childLoss)]
  }

  /** Filing changes exactly the two tables of the endpoints, each by one more entry under its position. */
  lemma FiledAt(ts: map<TableId, Slots>, l: Link, h: nat, t: TableId)
    requires l.parent != l.child
    ensures TableIn(Filed(ts, l, h), t) ==
      if t == ParentTable(l) then Put(TableIn(ts, t), l.parentPosition, h)
      else if t == ChildTable(l) then Put(TableIn(ts, t), l.childPosition, h)
      else TableIn(ts, t)
    ensures Filed(ts, l, h).Keys == ts.Keys + {ParentTable(l), ChildTable(l)}
  {
    FilingTablesDiffer(l);
  }

  /** Unfiling changes exactly the two tables of the endpoints, each by popping the link at its position. */
  lemma UnfiledAt(ts: map<TableId, Slots>, l: Link, h: nat, t: TableId)
    requires l.parent != l.child
    ensures TableIn(Unfiled(ts, l, h), t) ==
      if t == ParentTable(l) then PopOrKeep(TableIn(ts, t), l.parentPosition, h)
      else if t == ChildTable(l) then PopOrKeep(TableIn(ts, t), l.childPosition, h)
      else TableIn(ts, t)
    ensures Unfiled(ts, l, h).Keys == ts.Keys + {ParentTable(l), ChildTable(l)}
  {
    FilingTablesDiffer(l);
  }

  lemma DebitedAt(cs: map<NodeRef, Composition>, l: Link, n: NodeRef)
    requires l.parent != l.child
    ensures CompositionIn(Debited(cs, l), n) ==
      if n == l.parent then Sub(CompositionIn(cs, n), l.parentLoss)
      else if n == l.child then Sub(CompositionIn(cs, n), l.childLoss)
      else CompositionIn(cs, n)
    ensures Debited(cs, l).Keys == cs.Keys + {l.parent, l.child}
  {
  }

  lemma CreditedAt(cs: map<NodeRef, Composition>, l: Link, n: NodeRef)
    requires l.parent != l.child
    ensures CompositionIn(Credited(cs, l), n) ==
      if n == l.parent then Add(CompositionIn(cs, n), l.parentLoss)
      else if n == l.child then Add(CompositionIn(cs, n), l.childLoss)
      else CompositionIn(cs, n)
    ensures Credited(cs, l).Keys == cs.Keys + {l.parent, l.child}
  {
  }

  /**
   * `Link.apply()`: files the link under its position in one table of each
   * endpoint and takes each endpoint's loss off its composition. Applying a
   * link that is already in place changes nothing.
   */
  function ApplyLink(g: Graph, h: nat): (r: Graph)
    requires h in g.links
    ensures r.links == g.links[h := g.links[h].(attached := true)]
    ensures r.residues == g.residues && r.substituents == g.substituents && r.reducedEnds == g.reducedEnds && r.next == g.next
    ensures g.links[h].attached ==> r.tables == g.tables && r.compositions == g.compositions
  {
    var l := g.links[h];
    if l.attached then
      assert g.links[h := g.links[h].(attached := true)] == g.links;
      g
    else
      g.(tables := Filed(g.tables, l, h), compositions := Debited(g.compositions, l), links := g.links[h := l.(attached := true)])
  }

  /**
   * `Link.break_link(refund)`: takes the link out of both endpoints' tables
   * and, when `refund` holds, gives each endpoint its loss back. Breaking a
   * link that is not in place changes nothing.
   */
  function BreakLink(g: Graph, h: nat, refund: bool): (r: Graph)
    requires h in g.links
    ensures r.links == g.links[h := g.links[h].(attached := false)]
    ensures r.residues == g.residues && r.substituents == g.substituents && r.reducedEnds == g.reducedEnds && r.next == g.next
    ensures !g.links[h].attached ==> r.tables == g.tables && r.compositions == g.compositions
  {
    var l := g.links[h];
    if !l.attached then
      assert g.links[h := g.links[h].(attached := false)] == g.links;
      g
    else
      g.(tables := Unfiled(g.tables, l, h),
         compositions := if refund then Credited(g.compositions, l) else g.compositions,
         links := g.links[h := l.(attached := false)])
  }

  /** Applying a detached link files it once more under its position in the two tables of its endpoints, and nowhere else. */
  lemma ApplyLinkTable(g: Graph, h: nat, t: TableId)
    requires h in g.links && !g.links[h].attached && g.links[h].parent != g.links[h].child
    ensures var (l, r) := (g.links[h], ApplyLink(g, h));
      Table(r, t) == (
        if t == ParentTable(l) then Put(Table(g, t), l.parentPosition, h)
        else if t == ChildTable(l) then Put(Table(g, t), l.childPosition, h)
        else Table(g, t)) &&
      r.tables.Keys == g.tables.Keys + {ParentTable(l), ChildTable(l)}
  {
    FiledAt(g.tables, g.links[h], h, t);
  }

  /** Applying a detached link debits each endpoint its loss, and no other node. */
  lemma ApplyLinkComposition(g: Graph, h: nat, n: NodeRef)
    requires h in g.links && !g.links[h].attached && g.links[h].parent != g.links[h].child
    ensures var (l, r) := (g.links[h], ApplyLink(g, h));
      CompositionOf(r, n) == (
        if n == l.parent then Sub(CompositionOf(g, n), l.parentLoss)
        else if n == l.child then Sub(CompositionOf(g, n), l.childLoss)
        else CompositionOf(g, n)) &&
      r.compositions.Keys == g.compositions.Keys + {l.parent, l.child}
  {
    DebitedAt(g.compositions, g.links[h], n);
  }

  /** Breaking an attached link pops it at its position from the two tables of its endpoints, and nowhere else. */
  lemma BreakLinkTable(g: Graph, h: nat, refund: bool, t: TableId)
    requires h in g.links && g.links[h].attached && g.links[h].parent != g.links[h].child
    ensures var (l, r) := (g.links[h], BreakLink(g, h, refund));
      Table(r, t) == (
        if t == ParentTable(l) then PopOrKeep(Table(g, t), l.parentPosition, h)
        else if t == ChildTable(l) then PopOrKeep(Table(g, t), l.childPosition, h)
        else Table(g, t)) &&
      r.tables.Keys == g.tables.Keys + {ParentTable(l), ChildTable(l)}
  {
    UnfiledAt(g.tables, g.links[h], h, t);
  }

  /** Breaking an attached link with refund credits each endpoint its loss; without refund no composition changes. */
  lemma BreakLinkComposition(g: Graph, h: nat, refund: bool, n: NodeRef)
    requires h in g.links && g.links[h].attached && g.links[h].parent != g.links[h].child
    ensures var (l, r) := (g.links[h], BreakLink(g, h, refund));
      CompositionOf(r, n) == (
        if refund && n == l.parent then Add(CompositionOf(g, n), l.parentLoss)
        else if refund && n == l.child then Add(CompositionOf(g, n), l.childLoss)
        else CompositionOf(g, n)) &&
      r.compositions.Keys == (if refund then g.compositions.Keys + {l.parent, l.child} else g.compositions.Keys)
  {
    CreditedAt(g.compositions, g.links[h], n);
  }

  /** Distinct endpoints are filed in distinct tables. */
  lemma FilingTablesDiffer(l: Link)
    requires l.parent != l.child
    ensures ParentTable(l) != ChildTable(l)
  {
  }

  /** Storing a handle that was already handed out keeps a table in order. */
  lemma PutTableOk(m: Slots, next: nat, k: Position, v: nat)
    requires TableOk(m, next) && v < next
    ensures TableOk(Put(m, k, v), next)
  {
    PutValid(m, k, v);
    forall k' | k' in Put(m, k, v).contents ensures forall w | w in Put(m, k, v).contents[k'] :: w < next {
      PutAppends(m, k, v, k');
      assert Put(m, k, v).contents[k'] == Get(Put(m, k, v), k');
      forall w | w in Get(Put(m, k, v), k') ensures w < next {
        if k' != k || w !in [v] {
          assert w in Get(m, k');
        }
      }
    }
  }

  lemma {:induction false} RemoveFirstSubset<T>(s: seq<T>, x: T, y: T)
    requires y in RemoveFirst(s, x)
    ensures y in s
  {
    if |s| > 0 && s[0] != x && y != s[0] {
      RemoveFirstSubset(s[1..], x, y);
    }
  }

  /** Popping never adds a handle. */
  lemma PopTableOk(m: Slots, next: nat, k: Position, v: nat)
    requires TableOk(m, next)
    ensures TableOk(PopOrKeep(m, k, v), next)
  {
    PopRemovesFirst(m, k, v);
    var r := PopOrKeep(m, k, v);
    if Pop(m, k, v).Ok? {
      assert r == Pop(m, k, v).value.0;
      assert Get(r, k) == RemoveFirst(Get(m, k), v);
      forall k' | k' in r.contents ensures forall w | w in r.contents[k'] :: w < next {
        forall w | w in r.contents[k'] ensures w < next {
          assert r.contents[k'] == Get(r, k');
          if k' == k {
            RemoveFirstSubset<nat>(Get(m, k), v, w);
          }
          assert w in Get(m, k');
        }
      }
    }
  }

  /** A step that keeps the arenas and every link's endpoints, and leaves every table in order, keeps the graph well formed. */
  lemma WfAfterLinkStep(g: Graph, r: Graph)
    requires Wf(g)
    requires r.residues == g.residues && r.substituents == g.substituents && r.reducedEnds == g.reducedEnds && r.next == g.next
    requires r.links.Keys == g.links.Keys
    requires forall h | h in r.links :: r.links[h].parent == g.links[h].parent && r.links[h].child == g.links[h].child
    requires forall t | t in r.tables :: TableOk(r.tables[t], r.next)
    ensures Wf(r)
  {
    forall h | h in r.links ensures Has(r, r.links[h].parent) && Has(r, r.links[h].child) {
      assert Has(g, g.links[h].parent) && Has(g, g.links[h].child);
    }
  }

  /** After applying a link, each table still holds only handed-out handles. */
  lemma ApplyLinkTableOk(g: Graph, h: nat, t: TableId)
    requires Wf(g) && h in g.links && !g.links[h].attached && g.links[h].parent != g.links[h].child
    ensures TableOk(Table(ApplyLink(g, h), t), g.next)
  {
    var l := g.links[h];
    TableOfWf(g, t);
    ApplyLinkTable(g, h, t);
    if t == ParentTable(l) {
      PutTableOk(Table(g, t), g.next, l.parentPosition, h);
    } else if t == ChildTable(l) {
      PutTableOk(Table(g, t), g.next, l.childPosition, h);
    }
  }

  /** Applying a link keeps the graph well formed. */
  lemma ApplyLinkWf(g: Graph, h: nat)
    requires Wf(g) && h in g.links && g.links[h].parent != g.links[h].child
    ensures Wf(ApplyLink(g, h))
  {
    if !g.links[h].attached {
      var r := ApplyLink(g, h);
      forall t | t in r.tables ensures TableOk(r.tables[t], r.next) {
        ApplyLinkTableOk(g, h, t);
        assert r.tables[t] == Table(r, t);
      }
      WfAfterLinkStep(g, r);
    }
  }

  /** After breaking a link, each table still holds only handed-out handles. */
  lemma BreakLinkTableOk(g: Graph, h: nat, refund: bool, t: TableId)
    requires Wf(g) && h in g.links && g.links[h].attached && g.links[h].parent != g.links[h].child
    ensures TableOk(Table(BreakLink(g, h, refund), t), g.next)
  {
    var l := g.links[h];
    TableOfWf(g, t);
    BreakLinkTable(g, h, refund, t);
    if t == ParentTable(l) {
      PopTableOk(Table(g, t), g.next, l.parentPosition, h);
    } else if t == ChildTable(l) {
      PopTableOk(Table(g, t), g.next, l.childPosition, h);
    }
  }

  /** Breaking a link keeps the graph well formed. */
  lemma BreakLinkWf(g: Graph, h: nat, refund: bool)
    requires Wf(g) && h in g.links && g.links[h].parent != g.links[h].child
    ensures Wf(BreakLink(g, h, refund))
  {
    if g.links[h].attached {
      var r := BreakLink(g, h, refund);
      forall t | t in r.tables ensures TableOk(r.tables[t], r.next) {
        BreakLinkTableOk(g, h, refund, t);
        assert r.tables[t] == Table(r, t);
      }
      WfAfterLinkStep(g, r);
    }
  }

  /** What creating a link leaves behind: it is in place, and sits last and once at both of its positions. */
  predicate Settled(g: Graph, h: nat) {
    h in g.links && g.links[h].attached && g.links[h].parent != g.links[h].child &&
    var l := g.links[h];
    Valid(Table(g, ParentTable(l))) && Valid(Table(g, ChildTable(l))) &&
    LastAt(Table(g, ParentTable(l)), l.parentPosition, h) &&
    LastAt(Table(g, ChildTable(l)), l.childPosition, h) &&
    l.parent in g.compositions && l.child in g.compositions
  }

  /** Two graphs that agree on every table and on which tables exist have the same tables. */
  lemma TablesExt(a: Graph, b: Graph)
    requires a.tables.Keys == b.tables.Keys && forall t :: Table(a, t) == Table(b, t)
    ensures a.tables == b.tables
  {
    forall t | t in a.tables ensures a.tables[t] == b.tables[t] {
      assert Table(a, t) == Table(b, t);
    }
  }

  lemma CompositionsExt(a: Graph, b: Graph)
    requires a.compositions.Keys == b.compositions.Keys && forall n :: CompositionOf(a, n) == CompositionOf(b, n)
    ensures a.compositions == b.compositions
  {
    forall n | n in a.compositions ensures a.compositions[n] == b.compositions[n] {
      assert CompositionOf(a, n) == CompositionOf(b, n);
    }
  }

  /** Storing into a table the value it already holds changes nothing. */
  lemma StoreSame<K, T>(ts: map<K, T>, t: K, v: T)
    requires t in ts && ts[t] == v
    ensures ts[t := v] == ts
  {
  }

  lemma PopOrKeepThenPut(m: Slots, k: Position, v: nat)
    requires Valid(m) && LastAt(m, k, v)
    ensures Put(PopOrKeep(m, k, v), k, v) == m
  {
    PopThenPut(m, k, v);
  }

  /** Filing a link back where it was last popped from gives back the tables as they were. */
  lemma UnfiledThenFiled(ts: map<TableId, Slots>, l: Link, h: nat)
    requires l.parent != l.child
    requires ParentTable(l) in ts && Put(PopOrKeep(ts[ParentTable(l)], l.parentPosition, h), l.parentPosition, h) == ts[ParentTable(l)]
    requires ChildTable(l) in ts && Put(PopOrKeep(ts[ChildTable(l)], l.childPosition, h), l.childPosition, h) == ts[ChildTable(l)]
    ensures Filed(Unfiled(ts, l, h), l, h) == ts
  {
    var (tp, tc) := (ParentTable(l), ChildTable(l));
    FilingTablesDiffer(l);
    var (a, b) := (PopOrKeep(ts[tp], l.parentPosition, h), PopOrKeep(ts[tc], l.childPosition, h));
    var u := ts[tp := a][tc := b];
    assert Unfiled(ts, l, h) == u;
    assert Filed(u, l, h) == u[tp := Put(a, l.parentPosition, h)][tc := Put(b, l.childPosition, h)];
    assert u[tp := Put(a, l.parentPosition, h)][tc := Put(b, l.childPosition, h)] == ts[tp := ts[tp]][tc := ts[tc]];
    StoreSame(ts, tp, ts[tp]);
    StoreSame(ts, tc, ts[tc]);
  }

  /** Debiting what was just credited gives back the compositions as they were. */
  lemma CreditedThenDebited(cs: map<NodeRef, Composition>, l: Link)
    requires l.parent != l.child && l.parent in cs && l.child in cs
    ensures Debited(Credited(cs, l), l) == cs
  {
    AddSubCancel(cs[l.parent], l.parentLoss);
    AddSubCancel(cs[l.child], l.childLoss);
    var c := Credited(cs, l);
    assert Debited(c, l) == cs[l.parent := cs[l.parent]][l.child := cs[l.child]];
  }

  /** The link as breaking leaves it: detached, with the same endpoints, positions and losses. */
  lemma BrokenLink(g: Graph, h: nat, refund: bool)
    requires h in g.links
    ensures BreakLink(g, h, refund).links[h] == g.links[h].(attached := false)
  {
  }

  lemma BreakThenApplyTables(g: Graph, h: nat)
    requires Settled(g, h)
    ensures ApplyLink(BreakLink(g, h, true), h).tables == g.tables
  {
    var l := g.links[h];
    var b := BreakLink(g, h, true);
    BrokenLink(g, h, true);
    assert ApplyLink(b, h).tables == Filed(Unfiled(g.tables, l, h), l, h);
    PopOrKeepThenPut(Table(g, ParentTable(l)), l.parentPosition, h);
    PopOrKeepThenPut(Table(g, ChildTable(l)), l.childPosition, h);
    UnfiledThenFiled(g.tables, l, h);
  }

  lemma BreakThenApplyCompositions(g: Graph, h: nat)
    requires Settled(g, h)
    ensures ApplyLink(BreakLink(g, h, true), h).compositions == g.compositions
  {
    var l := g.links[h];
    var b := BreakLink(g, h, true);
    BrokenLink(g, h, true);
    assert ApplyLink(b, h).compositions == Debited(Credited(g.compositions, l), l);
    CreditedThenDebited(g.compositions, l);
  }

  /** Breaking a settled link with refund and applying it again gives back exactly the graph it started from. */
  lemma BreakThenApply(g: Graph, h: nat)
    requires Settled(g, h)
    ensures ApplyLink(BreakLink(g, h, true), h) == g
  {
    BreakThenApplyTables(g, h);
    BreakThenApplyCompositions(g, h);
    var l := g.links[h];
    var b := BreakLink(g, h, true);
    var r := ApplyLink(b, h);
    assert r.links == g.links[h := l.(attached := false)][h := l];
    StoreSame(g.links, h, l);
    assert r.links == g.links;
    assert r.residues == g.residues && r.substituents == g.substituents && r.reducedEnds == g.reducedEnds && r.next == g.next;
  }

  lemma ApplyThenBreakTable(g: Graph, h: nat, t: TableId)
    requires h in g.links && !g.links[h].attached && g.links[h].parent != g.links[h].child
    requires var l := g.links[h];
      Valid(Table(g, ParentTable(l))) && Valid(Table(g, ChildTable(l))) &&
      h !in Get(Table(g, ParentTable(l)), l.parentPosition) &&
      h !in Get(Table(g, ChildTable(l)), l.childPosition)
    ensures var r := BreakLink(ApplyLink(g, h), h, true);
      Table(r, t).contents == Table(g, t).contents && Items(Table(r, t)) == Items(Table(g, t))
  {
    var l := g.links[h];
    var a := ApplyLink(g, h);
    ApplyLinkTable(g, h, t);
    assert a.links[h] == l.(attached := true);
    BreakLinkTable(a, h, true, t);
    if t == ParentTable(l) {
      PutThenPop(Table(g, t), l.parentPosition, h);
    } else if t == ChildTable(l) {
      PutThenPop(Table(g, t), l.childPosition, h);
    }
  }

  lemma ApplyThenBreakComposition(g: Graph, h: nat, n: NodeRef)
    requires h in g.links && !g.links[h].attached && g.links[h].parent != g.links[h].child
    ensures CompositionOf(BreakLink(ApplyLink(g, h), h, true), n) == CompositionOf(g, n)
  {
    var l := g.links[h];
    var a := ApplyLink(g, h);
    ApplyLinkComposition(g, h, n);
    assert a.links[h] == l.(attached := true);
    BreakLinkComposition(a, h, true, n);
    if n == l.parent {
      AddSubCancel(CompositionOf(g, n), l.parentLoss);
    } else if n == l.child {
      AddSubCancel(CompositionOf(g, n), l.childLoss);
    }
  }

  /**
   * Applying a detached link that is filed nowhere yet and breaking it again
   * with refund restores the items and contents of every table, every
   * composition and the link arena; a position seen for the first time stays
   * listed in its table's key order.
   */
  lemma ApplyThenBreak(g: Graph, h: nat)
    requires h in g.links && !g.links[h].attached && g.links[h].parent != g.links[h].child
    requires var l := g.links[h];
      Valid(Table(g, ParentTable(l))) && Valid(Table(g, ChildTable(l))) &&
      h !in Get(Table(g, ParentTable(l)), l.parentPosition) &&
      h !in Get(Table(g, ChildTable(l)), l.childPosition)
    ensures var r := BreakLink(ApplyLink(g, h), h, true);
      r.links == g.links &&
      (forall n :: CompositionOf(r, n) == CompositionOf(g, n)) &&
      (forall t :: Table(r, t).contents == Table(g, t).contents && Items(Table(r, t)) == Items(Table(g, t)))
  {
    var r := BreakLink(ApplyLink(g, h), h, true);
    forall t ensures Table(r, t).contents == Table(g, t).contents && Items(Table(r, t)) == Items(Table(g, t)) {
      ApplyThenBreakTable(g, h, t);
    }
    forall n ensures CompositionOf(r, n) == CompositionOf(g, n) {
      ApplyThenBreakComposition(g, h, n);
    }
    assert r.links == g.links;
  }

  /**
   * Link `h` is the only link filed at its position in the two tables of its
   * endpoints, which are distinct and both hold a composition.
   */
  predicate Sole(g: Graph, h: nat)
    requires h in g.links
  {
    var l := g.links[h];
    l.parent != l.child &&
    Valid(Table(g, ParentTable(l))) && Valid(Table(g, ChildTable(l))) &&
    Get(Table(g, ParentTable(l)), l.parentPosition) == [h] &&
    Get(Table(g, ChildTable(l)), l.childPosition) == [h] &&
    l.parent in g.compositions && l.child in g.compositions
  }

  /** Every link in place is the only one at each of its two positions, as in a structure where each position carries one bond. */
  predicate Tidy(g: Graph) {
    forall h | h in g.links && g.links[h].attached :: Sole(g, h)
  }

  lemma SoleSettled(g: Graph, h: nat)
    requires h in g.links && g.links[h].attached && Sole(g, h)
    ensures Settled(g, h)
  {
  }

  /** Popping a value keeps a multimap well formed and changes no other key. */
  lemma PopOrKeepElsewhere(m: Slots, k: Position, v: nat, k': Position)
    requires Valid(m)
    ensures Valid(PopOrKeep(m, k, v))
    ensures k' != k ==> Get(PopOrKeep(m, k, v), k') == Get(m, k')
  {
    PopRemovesFirst(m, k, v);
  }

  /** The table of link `h2` at one of its ends, once `h` is broken, when `h` is not filed at that position. */
  lemma BreakLeavesSlot(g: Graph, h: nat, t: TableId, p: Position, h2: nat)
    requires h in g.links && g.links[h].attached && Sole(g, h)
    requires Valid(Table(g, t)) && Get(Table(g, t), p) == [h2] && h2 != h
    ensures Valid(Table(BreakLink(g, h, true), t)) && Get(Table(BreakLink(g, h, true), t), p) == [h2]
  {
    var l := g.links[h];
    BreakLinkTable(g, h, true, t);
    if t == ParentTable(l) {
      PopOrKeepElsewhere(Table(g, t), l.parentPosition, h, p);
    } else if t == ChildTable(l) {
      PopOrKeepElsewhere(Table(g, t), l.childPosition, h, p);
    }
  }

  /** Breaking a link of a tidy graph leaves a tidy graph. */
  lemma TidyAfterBreak(g: Graph, h: nat)
    requires Tidy(g) && h in g.links
    ensures Tidy(BreakLink(g, h, true))
  {
    var r := BreakLink(g, h, true);
    if g.links[h].attached {
      var l := g.links[h];
      forall h2 | h2 in r.links && r.links[h2].attached ensures Sole(r, h2) {
        assert h2 != h && r.links[h2] == g.links[h2];
        var l2 := g.links[h2];
        BreakLeavesSlot(g, h, ParentTable(l2), l2.parentPosition, h2);
        BreakLeavesSlot(g, h, ChildTable(l2), l2.childPosition, h2);
        BreakLinkComposition(g, h, true, l2.parent);
      }
    }
  }

  /** Position `p` of table `t` is one of the two slots link `l` is filed in. */
  predicate OwnSlot(l: Link, t: TableId, p: Position) {
    (t == ParentTable(l) && p == l.parentPosition) || (t == ChildTable(l) && p == l.childPosition)
  }

  /** Every handle filed in a table names a link in place, filed at one of its own two slots. */
  ghost predicate Placed(g: Graph) {
    forall t, p, v | v in Get(Table(g, t), p) :: v in g.links && g.links[v].attached && OwnSlot(g.links[v], t, p)
  }

  /** Breaking a link of a tidy graph whose filing is in order keeps the filing in order. */
  lemma PlacedAfterBreak(g: Graph, h: nat)
    requires Tidy(g) && Placed(g) && h in g.links
    ensures Placed(BreakLink(g, h, true))
  {
    var r := BreakLink(g, h, true);
    if g.links[h].attached {
      var l := g.links[h];
      forall t, p, v | v in Get(Table(r, t), p) ensures v in r.links && r.links[v].attached && OwnSlot(r.links[v], t, p) {
        BreakLinkTable(g, h, true, t);
        FilingTablesDiffer(l);
        if t == ParentTable(l) {
          PopRemovesFirst(Table(g, t), l.parentPosition, h);
        } else if t == ChildTable(l) {
          PopRemovesFirst(Table(g, t), l.childPosition, h);
        }
        assert v in Get(Table(g, t), p);
        assert v != h;
      }
    }
  }
}
