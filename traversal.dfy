/**
 * What the traversals of `Glycan` (pygly2/structure/glycan.py) compute, as
 * functions: the depth-first and breadth-first walks over the residue graph
 * with their stack or queue and their set of visited ids, and the link
 * enumeration of `iterlinks` built on them. The `Glycan` class runs them as
 * loops and is proved to produce these values.
 */
module Traversals {
  import opened MultiMaps
  import opened Compositions
  import opened Graphs
  import opened ResidueQueries

  // ---------------------------------------------------------------------------
  // Neighbours and their order

  /** `node.id` of a stored residue. */
  function Id(g: Graph, h: nat): int
    requires h in g.residues
  {
    g.residues[h].id
  }

  /** `for terminal in link`: the residue ends of a link, parent first. */
  function ResidueEnds(g: Graph, l: Link): (r: seq<nat>)
    ensures forall i | 0 <= i < |r| :: r[i] in g.residues
  {
    (if l.parent.ResidueNode? && l.parent.h in g.residues then [l.parent.h] else []) +
    (if l.child.ResidueNode? && l.child.h in g.residues then [l.child.h] else [])
  }

  /** The residue ends of every stored link listed in `items`, in `items()` order. */
  function EndsOf(g: Graph, items: Entries): (r: seq<nat>)
    ensures forall i | 0 <= i < |r| :: r[i] in g.residues
  {
    if |items| == 0 then []
    else (if items[0].1 in g.links then ResidueEnds(g, g.links[items[0].1]) else []) + EndsOf(g, items[1..])
  }

  /** Both ends of every link in a residue's `links` table. */
  function Neighbours(g: Graph, h: nat): seq<nat> {
    EndsOf(g, Items(Table(g, LinksOf(ResidueNode(h)))))
  }

  /** `methodcaller("order")`: the number of children plus substituent links. */
  function OrderKey(g: Graph, h: nat): nat {
    if LinksKnown(g, h) then Order(g, h, true) else 0
  }

  /** Inserting after every element whose key is not larger keeps equal keys in arrival order. */
  function InsertBy(key: nat -> nat, x: nat, s: seq<nat>): seq<nat> {
    if |s| == 0 then [x]
    else if key(x) < key(s[0]) then [x] + s
    else [s[0]] + InsertBy(key, x, s[1..])
  }

  /** A stable insertion sort by ascending key, as `sorted(..., key=...)` is stable. */
  function SortBy(key: nat -> nat, s: seq<nat>): seq<nat> {
    if |s| == 0 then [] else InsertBy(key, s[|s| - 1], SortBy(key, s[..|s| - 1]))
  }

  /** `sorted(..., key=methodcaller("order"))` */
  function SortByOrder(g: Graph, s: seq<nat>): seq<nat> {
    SortBy(KeyFn(g), s)
  }

  predicate Ascending(key: nat -> nat, s: seq<nat>) {
    forall i, j | 0 <= i < j < |s| :: key(s[i]) <= key(s[j])
  }

  lemma {:induction false} InsertByPermutes(key: nat -> nat, x: nat, s: seq<nat>)
    ensures multiset(InsertBy(key, x, s)) == multiset(s) + multiset{x}
  {
    if |s| > 0 && key(x) >= key(s[0]) {
      InsertByPermutes(key, x, s[1..]);
      assert s == [s[0]] + s[1..];
    }
  }

  /** Every element of the insertion is the inserted one or an element of the list. */
  lemma {:induction false} InsertByMembers(key: nat -> nat, x: nat, s: seq<nat>, i: nat)
    requires i < |InsertBy(key, x, s)|
    ensures InsertBy(key, x, s)[i] == x || InsertBy(key, x, s)[i] in s
  {
    if |s| > 0 && key(x) >= key(s[0]) && i > 0 {
      InsertByMembers(key, x, s[1..], i - 1);
    }
  }

  /** A list headed by `y` is ascending when its tail is and no tail key is below `y`'s. */
  lemma ConsAscending(key: nat -> nat, y: nat, t: seq<nat>)
    requires Ascending(key, t) && forall i | 0 <= i < |t| :: key(y) <= key(t[i])
    ensures Ascending(key, [y] + t)
  {
    var r := [y] + t;
    forall i, j | 0 <= i < j < |r| ensures key(r[i]) <= key(r[j]) {
      assert r[j] == t[j - 1];
      if i > 0 {
        assert r[i] == t[i - 1];
      }
    }
  }

  lemma {:induction false} InsertBySorted(key: nat -> nat, x: nat, s: seq<nat>)
    requires Ascending(key, s)
    ensures Ascending(key, InsertBy(key, x, s))
  {
    if |s| > 0 {
      if key(x) >= key(s[0]) {
        var t := InsertBy(key, x, s[1..]);
        InsertBySorted(key, x, s[1..]);
        forall i | 0 <= i < |t| ensures key(s[0]) <= key(t[i]) {
          InsertByMembers(key, x, s[1..], i);
          if t[i] != x {
            var j :| 0 <= j < |s[1..]| && s[1..][j] == t[i];
            assert s[j + 1] == t[i];
          }
        }
        ConsAscending(key, s[0], t);
      } else {
        forall i | 0 <= i < |s| ensures key(x) <= key(s[i]) {
          assert key(s[0]) <= key(s[i]) || i == 0;
        }
        ConsAscending(key, x, s);
      }
    }
  }

  /** The sort orders by ascending key and only rearranges its input. */
  lemma {:induction false} SortBySorted(key: nat -> nat, s: seq<nat>)
    ensures Ascending(key, SortBy(key, s))
    ensures multiset(SortBy(key, s)) == multiset(s)
  {
    if |s| > 0 {
      var p := s[..|s| - 1];
      SortBySorted(key, p);
      InsertBySorted(key, s[|s| - 1], SortBy(key, p));
      InsertByPermutes(key, s[|s| - 1], SortBy(key, p));
      assert s == p + [s[|s| - 1]];
    }
  }

  // ---------------------------------------------------------------------------
  // Traversal

  /**
   * A traversal sees the residues through three things only: each residue's
   * id, the nodes at the far ends of its links, and the `order()` key.
   */
  type Ids = map<nat, int>

  function ResidueIds(g: Graph): (r: Ids)
    ensures r.Keys == g.residues.Keys && forall h | h in r :: r[h] == Id(g, h)
  {
    map h | h in g.residues :: g.residues[h].id
  }

  function NeighbourFn(g: Graph): nat -> seq<nat> {
    h => Neighbours(g, h)
  }

  function KeyFn(g: Graph): nat -> nat {
    h => OrderKey(g, h)
  }

  /** The generator's filter `if terminal.id not in visited`. */
  function Unseen(ids: Ids, hs: seq<nat>, visited: set<int>): (r: seq<nat>)
    ensures forall i | 0 <= i < |r| :: r[i] in ids && ids[r[i]] !in visited
  {
    if |hs| == 0 then []
    else (if hs[0] in ids && ids[hs[0]] !in visited then [hs[0]] else []) + Unseen(ids, hs[1..], visited)
  }

  lemma {:induction false} UnseenMember(ids: Ids, hs: seq<nat>, visited: set<int>, y: nat)
    requires y in hs && y in ids && ids[y] !in visited
    ensures y in Unseen(ids, hs, visited)
  {
    if hs[0] != y {
      UnseenMember(ids, hs[1..], visited, y);
    }
  }

  /** The residues whose id is not yet visited: what bounds the rest of a traversal. */
  function Unvisited(ids: Ids, visited: set<int>): set<nat> {
    set h | h in ids && ids[h] !in visited
  }

  lemma {:induction false} SubsetNoLarger<T>(a: set<T>, b: set<T>)
    requires a <= b
    ensures |a| <= |b|
    decreases |a|
  {
    if a != {} {
      var y :| y in a;
      SubsetNoLarger(a - {y}, b - {y});
    }
  }

  /** Visiting a residue whose id was unvisited leaves strictly fewer unvisited residues. */
  lemma VisitShrinks(ids: Ids, h: nat, visited: set<int>)
    requires h in ids && ids[h] !in visited
    ensures |Unvisited(ids, visited + {ids[h]})| < |Unvisited(ids, visited)|
  {
    var (a, b) := (Unvisited(ids, visited + {ids[h]}), Unvisited(ids, visited));
    assert h in b && h !in a;
    SubsetNoLarger(a, b - {h});
  }

  /** What a visit pushes: the unseen far ends of the node's links, sorted by key. */
  function Pushed(ids: Ids, nb: nat -> seq<nat>, key: nat -> nat, h: nat, visited: set<int>): seq<nat> {
    SortBy(key, Unseen(ids, nb(h), visited))
  }

  /**
   * The nodes a traversal yields from the pending nodes and the set of
   * visited ids: depth-first pops the last pending node, breadth-first the
   * first. A node whose id is already visited is passed over.
   */
  function Walk(ids: Ids, nb: nat -> seq<nat>, key: nat -> nat, pending: seq<nat>, visited: set<int>, depthFirst: bool): seq<nat>
    decreases |Unvisited(ids, visited)|, |pending|
  {
    if |pending| == 0 then []
    else
      var h := if depthFirst then pending[|pending| - 1] else pending[0];
      var rest := if depthFirst then pending[..|pending| - 1] else pending[1..];
      if h !in ids || ids[h] in visited then Walk(ids, nb, key, rest, visited, depthFirst)
      else
        var seen := visited + {ids[h]};
        VisitShrinks(ids, h, visited);
        [h] + Walk(ids, nb, key, rest + Pushed(ids, nb, key, h, seen), seen, depthFirst)
  }

  /** `depth_first_traversal` / `breadth_first_traversal` over the residues of `g`. */
  function Traverse(g: Graph, pending: seq<nat>, visited: set<int>, depthFirst: bool): seq<nat> {
    Walk(ResidueIds(g), NeighbourFn(g), KeyFn(g), pending, visited, depthFirst)
  }

  /** One step of `Traverse`: the node taken from the pending list is skipped or yielded, and a yielded node pushes its unseen neighbours. */
  lemma TraverseStep(g: Graph, pending: seq<nat>, visited: set<int>, depthFirst: bool)
    requires |pending| > 0
    ensures var ids := ResidueIds(g);
      var h := if depthFirst then pending[|pending| - 1] else pending[0];
      var rest := if depthFirst then pending[..|pending| - 1] else pending[1..];
      Traverse(g, pending, visited, depthFirst) ==
        if h !in ids || ids[h] in visited then Traverse(g, rest, visited, depthFirst)
        else [h] + Traverse(g, rest + SortByOrder(g, Unseen(ids, Neighbours(g, h), visited + {ids[h]})), visited + {ids[h]}, depthFirst)
  {
  }

  /** Each yielded node has an id, not visited before and different from every earlier node's. */
  predicate FreshIds(ids: Ids, out: seq<nat>, visited: set<int>) {
    forall i | 0 <= i < |out| ::
      out[i] in ids && ids[out[i]] !in visited &&
      forall j | 0 <= j < i :: out[j] in ids && ids[out[j]] != ids[out[i]]
  }

  /** The ids of the nodes of `hs` that have one. */
  function IdsOf(ids: Ids, hs: seq<nat>): set<int> {
    if |hs| == 0 then {} else (if hs[0] in ids then {ids[hs[0]]} else {}) + IdsOf(ids, hs[1..])
  }

  lemma {:induction false} IdsOfAppend(ids: Ids, a: seq<nat>, b: seq<nat>)
    ensures IdsOf(ids, a + b) == IdsOf(ids, a) + IdsOf(ids, b)
  {
    if |a| > 0 {
      assert (a + b)[0] == a[0] && (a + b)[1..] == a[1..] + b;
      IdsOfAppend(ids, a[1..], b);
    } else {
      assert a + b == b;
    }
  }

  lemma {:induction false} IdsOfWitness(ids: Ids, hs: seq<nat>, v: int)
    requires v in IdsOf(ids, hs)
    ensures exists i | 0 <= i < |hs| :: hs[i] in ids && ids[hs[i]] == v
  {
    if hs[0] in ids && ids[hs[0]] == v {
      assert hs[0] in ids && ids[hs[0]] == v;
    } else {
      IdsOfWitness(ids, hs[1..], v);
      var i :| 0 <= i < |hs[1..]| && hs[1..][i] in ids && ids[hs[1..][i]] == v;
      assert hs[i + 1] == hs[1..][i];
    }
  }

  /** Nodes with pairwise distinct ids have as many ids as there are nodes. */
  lemma {:induction false} FreshIdsCount(ids: Ids, out: seq<nat>, visited: set<int>)
    requires FreshIds(ids, out, visited)
    ensures |IdsOf(ids, out)| == |out|
  {
    if |out| > 0 {
      var p := out[..|out| - 1];
      var x := out[|out| - 1];
      assert FreshIds(ids, p, visited);
      FreshIdsCount(ids, p, visited);
      assert out == p + [x];
      IdsOfAppend(ids, p, [x]);
      assert IdsOf(ids, [x]) == {ids[x]};
      if ids[x] in IdsOf(ids, p) {
        IdsOfWitness(ids, p, ids[x]);
      }
    }
  }

  /** A traversal never yields a node twice, by id, nor one whose id was visited when it began. */
  lemma {:induction false} WalkFresh(ids: Ids, nb: nat -> seq<nat>, key: nat -> nat, pending: seq<nat>, visited: set<int>, depthFirst: bool)
    ensures FreshIds(ids, Walk(ids, nb, key, pending, visited, depthFirst), visited)
    decreases |Unvisited(ids, visited)|, |pending|
  {
    if |pending| > 0 {
      var h := if depthFirst then pending[|pending| - 1] else pending[0];
      var rest := if depthFirst then pending[..|pending| - 1] else pending[1..];
      if h !in ids || ids[h] in visited {
        WalkFresh(ids, nb, key, rest, visited, depthFirst);
      } else {
        var seen := visited + {ids[h]};
        VisitShrinks(ids, h, visited);
        var tail := Walk(ids, nb, key, rest + Pushed(ids, nb, key, h, seen), seen, depthFirst);
        WalkFresh(ids, nb, key, rest + Pushed(ids, nb, key, h, seen), seen, depthFirst);
        var out := [h] + tail;
        assert Walk(ids, nb, key, pending, visited, depthFirst) == out;
        forall i | 0 <= i < |out|
          ensures out[i] in ids && ids[out[i]] !in visited
          ensures forall j | 0 <= j < i :: out[j] in ids && ids[out[j]] != ids[out[i]]
        {
          if i > 0 {
            assert out[i] == tail[i - 1];
            forall j | 0 <= j < i ensures out[j] in ids && ids[out[j]] != ids[out[i]] {
              if j > 0 {
                assert out[j] == tail[j - 1];
              }
            }
          }
        }
      }
    }
  }

  /**
   * Nothing reachable is missed: every pending node and every far end of a
   * yielded node's links ends up with its id visited from the start or
   * yielded.
   */
  lemma {:induction false} WalkCovers(ids: Ids, nb: nat -> seq<nat>, key: nat -> nat, pending: seq<nat>, visited: set<int>, depthFirst: bool)
    ensures var out := Walk(ids, nb, key, pending, visited, depthFirst);
      (forall x | x in pending && x in ids :: ids[x] in visited + IdsOf(ids, out)) &&
      (forall i, y | 0 <= i < |out| && y in nb(out[i]) && y in ids :: ids[y] in visited + IdsOf(ids, out))
    decreases |Unvisited(ids, visited)|, |pending|
  {
    if |pending| > 0 {
      var h := if depthFirst then pending[|pending| - 1] else pending[0];
      var rest := if depthFirst then pending[..|pending| - 1] else pending[1..];
      assert forall x | x in pending :: x == h || x in rest by {
        if depthFirst {
          assert pending == rest + [h];
        } else {
          assert pending == [h] + rest;
        }
      }
      if h !in ids || ids[h] in visited {
        WalkCovers(ids, nb, key, rest, visited, depthFirst);
      } else {
        var seen := visited + {ids[h]};
        VisitShrinks(ids, h, visited);
        var more := Pushed(ids, nb, key, h, seen);
        var tail := Walk(ids, nb, key, rest + more, seen, depthFirst);
        WalkCovers(ids, nb, key, rest + more, seen, depthFirst);
        var out := [h] + tail;
        assert Walk(ids, nb, key, pending, visited, depthFirst) == out;
        IdsOfAppend(ids, [h], tail);
        assert IdsOf(ids, [h]) == {ids[h]};
        assert seen + IdsOf(ids, tail) == visited + IdsOf(ids, out);
        SortBySorted(key, Unseen(ids, nb(h), seen));
        forall i, y | 0 <= i < |out| && y in nb(out[i]) && y in ids
          ensures ids[y] in visited + IdsOf(ids, out)
        {
          if i > 0 {
            assert out[i] == tail[i - 1];
          } else if ids[y] !in seen {
            UnseenMember(ids, nb(h), seen, y);
            assert y in multiset(more);
            assert y in rest + more;
          }
        }
      }
    }
  }

  /**
   * Depth-first order: right after a node, the traversal expands the
   * last-pushed of its unseen neighbours, one whose key is the highest.
   */
  lemma DepthFirstExpandsHighest(ids: Ids, nb: nat -> seq<nat>, key: nat -> nat, pending: seq<nat>, visited: set<int>)
    requires |pending| > 0
    requires var h := pending[|pending| - 1]; h in ids && ids[h] !in visited
    requires var h := pending[|pending| - 1]; |Unseen(ids, nb(h), visited + {ids[h]})| > 0
    ensures var (h, out) := (pending[|pending| - 1], Walk(ids, nb, key, pending, visited, true));
      |out| > 1 && out[0] == h &&
      forall y | y in Unseen(ids, nb(h), visited + {ids[h]}) :: key(y) <= key(out[1])
  {
    var h := pending[|pending| - 1];
    var seen := visited + {ids[h]};
    var cands := Unseen(ids, nb(h), seen);
    var more := Pushed(ids, nb, key, h, seen);
    VisitShrinks(ids, h, visited);
    SortBySorted(key, cands);
    assert |more| > 0 by {
      assert cands[0] in multiset(more);
    }
    var top := more[|more| - 1];
    assert top in multiset(cands);
    var k :| 0 <= k < |cands| && cands[k] == top;
    assert top in ids && ids[top] !in seen;
    var rest := pending[..|pending| - 1] + more;
    assert Walk(ids, nb, key, pending, visited, true) == [h] + Walk(ids, nb, key, rest, seen, true);
    assert rest[|rest| - 1] == top;
    VisitShrinks(ids, top, seen);
    assert Walk(ids, nb, key, rest, seen, true)[0] == top;
    forall y | y in cands ensures key(y) <= key(top) {
      assert y in multiset(more);
      var j :| 0 <= j < |more| && more[j] == y;
      assert j == |more| - 1 || key(more[j]) <= key(more[|more| - 1]);
    }
  }

  // ---------------------------------------------------------------------------
  // iterlinks

  /** One entry of a node's tables as `iterlinks` meets it, and whether it came from `substituent_links`. */
  datatype Visit = Visit(pos: Position, link: nat, substituent: bool)

  function Visits(items: Entries, substituent: bool): (r: seq<Visit>)
    ensures |r| == |items| && forall i | 0 <= i < |r| :: r[i] == Visit(items[i].0, items[i].1, substituent)
  {
    seq(|items|, i requires 0 <= i < |items| => Visit(items[i].0, items[i].1, substituent))
  }

  /** The inner generator `links(obj)`: the substituent links when asked for, then the `links` table. */
  function NodeVisits(g: Graph, h: nat, substituents: bool): seq<Visit> {
    (if substituents then Visits(Items(Table(g, SubstituentLinksOf(h))), true) else []) +
    Visits(Items(Table(g, LinksOf(ResidueNode(h)))), false)
  }

  /** `chain.from_iterable` over the traversal. */
  function AllVisits(g: Graph, nodes: seq<nat>, substituents: bool): seq<Visit> {
    if |nodes| == 0 then [] else NodeVisits(g, nodes[0], substituents) + AllVisits(g, nodes[1..], substituents)
  }

  /**
   * The `links_visited` filter: a substituent link is always passed on; a
   * link of the `links` table only the first time its id is met.
   */
  function FirstVisits(g: Graph, vs: seq<Visit>, seen: set<int>): seq<(Position, nat)> {
    if |vs| == 0 then []
    else
      var v := vs[0];
      if v.substituent then [(v.pos, v.link)] + FirstVisits(g, vs[1..], seen)
      else if v.link !in g.links || g.links[v.link].id in seen then FirstVisits(g, vs[1..], seen)
      else [(v.pos, v.link)] + FirstVisits(g, vs[1..], seen + {g.links[v.link].id})
  }

  /** `iterlinks(substituents)` over the given traversal. */
  function IterLinksOf(g: Graph, nodes: seq<nat>, substituents: bool): seq<(Position, nat)> {
    FirstVisits(g, AllVisits(g, nodes, substituents), {})
  }

  /** The ids of the stored links among `items`. */
  function LinkIds(g: Graph, items: Entries): set<int> {
    if |items| == 0 then {}
    else (if items[0].1 in g.links then {g.links[items[0].1].id} else {}) + LinkIds(g, items[1..])
  }

  /** Without substituent links, every entry passed on is a stored link whose id is new and met once. */
  predicate LinksOnce(g: Graph, r: Entries, seen: set<int>) {
    forall i | 0 <= i < |r| ::
      r[i].1 in g.links && g.links[r[i].1].id !in seen &&
      forall j | 0 <= j < i :: r[j].1 in g.links && g.links[r[j].1].id != g.links[r[i].1].id
  }

  /**
   * `iterlinks` yields each link at most once, by id, though both of its
   * ends list it; and every stored link met on the way has its id in the
   * starting set or yielded.
   */
  lemma {:induction false} FirstVisitsOnce(g: Graph, vs: seq<Visit>, seen: set<int>)
    requires forall i | 0 <= i < |vs| :: !vs[i].substituent
    ensures LinksOnce(g, FirstVisits(g, vs, seen), seen)
    ensures forall i | 0 <= i < |vs| && vs[i].link in g.links ::
      g.links[vs[i].link].id in seen + LinkIds(g, FirstVisits(g, vs, seen))
  {
    if |vs| > 0 {
      var v := vs[0];
      if v.link !in g.links || g.links[v.link].id in seen {
        FirstVisitsOnce(g, vs[1..], seen);
        forall i | 0 <= i < |vs| && vs[i].link in g.links
          ensures g.links[vs[i].link].id in seen + LinkIds(g, FirstVisits(g, vs, seen))
        {
          if i > 0 {
            assert vs[i] == vs[1..][i - 1];
          }
        }
      } else {
        var seen' := seen + {g.links[v.link].id};
        var tail := FirstVisits(g, vs[1..], seen');
        FirstVisitsOnce(g, vs[1..], seen');
        var r := [(v.pos, v.link)] + tail;
        assert FirstVisits(g, vs, seen) == r;
        assert r[1..] == tail;
        assert LinkIds(g, r) == {g.links[v.link].id} + LinkIds(g, tail);
        forall i | 0 <= i < |r|
          ensures r[i].1 in g.links && g.links[r[i].1].id !in seen
          ensures forall j | 0 <= j < i :: r[j].1 in g.links && g.links[r[j].1].id != g.links[r[i].1].id
        {
          if i > 0 {
            assert r[i] == tail[i - 1];
            forall j | 0 <= j < i ensures r[j].1 in g.links && g.links[r[j].1].id != g.links[r[i].1].id {
              if j > 0 {
                assert r[j] == tail[j - 1];
              }
            }
          }
        }
        forall i | 0 <= i < |vs| && vs[i].link in g.links
          ensures g.links[vs[i].link].id in seen + LinkIds(g, r)
        {
          if i > 0 {
            assert vs[i] == vs[1..][i - 1];
          }
        }
      }
    }
  }

  lemma {:induction false} AllVisitsOfLinks(g: Graph, nodes: seq<nat>)
    ensures forall i | 0 <= i < |AllVisits(g, nodes, false)| :: !AllVisits(g, nodes, false)[i].substituent
  {
    if |nodes| > 0 {
      AllVisitsOfLinks(g, nodes[1..]);
      var a: seq<Visit> := NodeVisits(g, nodes[0], false);
      var b: seq<Visit> := AllVisits(g, nodes[1..], false);
      assert a == [] + Visits(Items(Table(g, LinksOf(ResidueNode(nodes[0])))), false);
      forall i | 0 <= i < |a + b| ensures !(a + b)[i].substituent {
        if i >= |a| {
          assert (a + b)[i] == b[i - |a|];
        }
      }
    }
  }

  /** Every entry of the `links` table of a traversed node is met by `iterlinks`. */
  lemma {:induction false} AllVisitsMeets(g: Graph, nodes: seq<nat>, i: nat, k: nat)
    requires i < |nodes|
    requires k < |Items(Table(g, LinksOf(ResidueNode(nodes[i]))))|
    ensures var e := Items(Table(g, LinksOf(ResidueNode(nodes[i]))))[k];
      Visit(e.0, e.1, false) in AllVisits(g, nodes, false)
  {
    var e := Items(Table(g, LinksOf(ResidueNode(nodes[i]))))[k];
    var a: seq<Visit> := NodeVisits(g, nodes[0], false);
    var b: seq<Visit> := AllVisits(g, nodes[1..], false);
    assert AllVisits(g, nodes, false) == a + b;
    if i == 0 {
      assert a == [] + Visits(Items(Table(g, LinksOf(ResidueNode(nodes[0])))), false);
      assert a[k] == Visit(e.0, e.1, false);
      assert (a + b)[k] == a[k];
    } else {
      AllVisitsMeets(g, nodes[1..], i - 1, k);
      var j :| 0 <= j < |b| && b[j] == Visit(e.0, e.1, false);
      assert (a + b)[|a| + j] == b[j];
    }
  }

  /**
   * `iterlinks()` without substituents yields each link at most once, and
   * every stored link in the `links` table of a traversed node has its id
   * yielded.
   */
  lemma IterLinksOnce(g: Graph, nodes: seq<nat>)
    ensures LinksOnce(g, IterLinksOf(g, nodes, false), {})
    ensures forall i, k | 0 <= i < |nodes| && 0 <= k < |Items(Table(g, LinksOf(ResidueNode(nodes[i]))))| ::
      var e := Items(Table(g, LinksOf(ResidueNode(nodes[i]))))[k];
      e.1 in g.links ==> g.links[e.1].id in LinkIds(g, IterLinksOf(g, nodes, false))
  {
    AllVisitsOfLinks(g, nodes);
    FirstVisitsOnce(g, AllVisits(g, nodes, false), {});
    forall i, k | 0 <= i < |nodes| && 0 <= k < |Items(Table(g, LinksOf(ResidueNode(nodes[i]))))|
      ensures var e := Items(Table(g, LinksOf(ResidueNode(nodes[i]))))[k];
        e.1 in g.links ==> g.links[e.1].id in LinkIds(g, IterLinksOf(g, nodes, false))
    {
      AllVisitsMeets(g, nodes, i, k);
    }
  }
  /** The link handles of `iterlinks` entries, in order. */
  function Handles(items: Entries): (r: seq<nat>)
    ensures |r| == |items| && forall i | 0 <= i < |r| :: r[i] == items[i].1
  {
    seq(|items|, i requires 0 <= i < |items| => items[i].1)
  }

  /** Every entry of `items()` holds a value stored in the multimap. */
  lemma {:induction false} ItemsOfWithin(m: Slots, keys: seq<Position>, s: set<nat>)
    requires forall k, v | v in Get(m, k) :: v in s
    ensures forall i | 0 <= i < |ItemsOf(m, keys)| :: ItemsOf(m, keys)[i].1 in s
  {
    if |keys| > 0 {
      ItemsOfWithin(m, keys[1..], s);
      var a: seq<(Position, nat)> := Pairs(keys[0], Get(m, keys[0]));
      var b: seq<(Position, nat)> := ItemsOf(m, keys[1..]);
      forall i | 0 <= i < |a + b| ensures (a + b)[i].1 in s {
        if i < |a| {
          assert (a + b)[i] == a[i];
        } else {
          assert (a + b)[i] == b[i - |a|];
        }
      }
    }
  }

  lemma {:induction false} AllVisitsWithin(g: Graph, nodes: seq<nat>, s: set<nat>)
    requires forall n, p, v | v in Get(Table(g, LinksOf(n)), p) :: v in s
    ensures forall i | 0 <= i < |AllVisits(g, nodes, false)| :: AllVisits(g, nodes, false)[i].link in s
  {
    if |nodes| > 0 {
      AllVisitsWithin(g, nodes[1..], s);
      var m := Table(g, LinksOf(ResidueNode(nodes[0])));
      ItemsOfWithin(m, m.keyOrder, s);
      var a: seq<Visit> := NodeVisits(g, nodes[0], false);
      var b: seq<Visit> := AllVisits(g, nodes[1..], false);
      assert a == [] + Visits(Items(m), false);
      forall i | 0 <= i < |a + b| ensures (a + b)[i].link in s {
        if i < |a| {
          assert (a + b)[i] == a[i];
        } else {
          assert (a + b)[i] == b[i - |a|];
        }
      }
    }
  }

  lemma {:induction false} FirstVisitsWithin(g: Graph, vs: seq<Visit>, seen: set<int>, s: set<nat>)
    requires forall i | 0 <= i < |vs| :: vs[i].link in s
    ensures forall i | 0 <= i < |FirstVisits(g, vs, seen)| :: FirstVisits(g, vs, seen)[i].1 in s
  {
    if |vs| > 0 {
      var v := vs[0];
      var seen' := if v.substituent || v.link !in g.links || g.links[v.link].id in seen then seen else seen + {g.links[v.link].id};
      forall i | 0 <= i < |vs[1..]| ensures vs[1..][i].link in s {
        assert vs[1..][i] == vs[i + 1];
      }
      FirstVisitsWithin(g, vs[1..], seen', s);
    }
  }

  /** `iterlinks()` yields only links filed in the `links` tables it walks. */
  lemma IterLinksWithin(g: Graph, nodes: seq<nat>, s: set<nat>)
    requires forall n, p, v | v in Get(Table(g, LinksOf(n)), p) :: v in s
    ensures forall i | 0 <= i < |Handles(IterLinksOf(g, nodes, false))| :: Handles(IterLinksOf(g, nodes, false))[i] in s
  {
    AllVisitsWithin(g, nodes, s);
    FirstVisitsWithin(g, AllVisits(g, nodes, false), {}, s);
  }
}
