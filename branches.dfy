/**
 * What `Glycan.label_branches` (pygly2/structure/glycan.py) computes, node by
 * node of the depth-first traversal: every link from a node to one of its
 * children receives a label, a branch letter and a depth, and
 * `branch_lengths` records the depth each letter has reached. A node with a
 * single child link continues the branch of the link it hangs from; a node
 * with any other number of child links opens a fresh letter for each of them.
 * The main branch is '-'.
 */
module BranchLabels {
  import opened Wrappers
  import opened MultiMaps
  import opened Compositions
  import opened Graphs
  import opened ResidueQueries
  import Base

  /** `MAIN_BRANCH_SYM` */
  const MainBranch: char := '-'

  /** The exceptions `label_branches` can raise. */
  datatype LabelError =
    | MissingBranch(key: char)   // KeyError: a parent's branch letter has no entry in branch_lengths
    | LetterOutOfRange           // ValueError from chr: no letter after '\xff'
    | BrokenTable                // a link table naming a link that does not exist

  /** The state `label_branches` carries from node to node: the link arena, `branch_lengths` and `last_branch_label`. */
  datatype LabelState = LabelState(links: map<nat, Link>, lengths: map<char, int>, last: char)

  /** The state before the first node: `branch_lengths = {'-': 0}` and `last_branch_label = '-'`. */
  function StartLabels(links: map<nat, Link>): LabelState {
    LabelState(links, map[MainBranch := 0], MainBranch)
  }

  /**
   * The loop that collects `links`: every link of the table for which the
   * node is not the child, in `items()` order (a handle naming no stored
   * link is passed over; a node's table only holds stored links).
   */
  function ChildLinks(links: map<nat, Link>, items: Entries, n: NodeRef): (r: seq<nat>)
    ensures forall i | 0 <= i < |r| :: r[i] in links && links[r[i]].child != n
  {
    if |items| == 0 then []
    else (if items[0].1 in links && links[items[0].1].child != n then [items[0].1] else []) + ChildLinks(links, items[1..], n)
  }

  /**
   * `get_parent_link(node)`: the letter of the label on the first link
   * stored at the position of the node's first parent; '-' when the node has
   * no parent or that link carries no label.
   */
  function ParentKey(links: map<nat, Link>, table: Slots, n: NodeRef): Result<char, LabelError>
    requires Known(links, Items(table))
  {
    var ps := ParentsOf(links, Items(table), n);
    if |ps| == 0 then Ok(MainBranch)
    else
      var slot := Get(table, ps[0].0);
      if |slot| == 0 || slot[0] !in links then Err(BrokenTable)
      else match links[slot[0]].branchLabel
        case None => Ok(MainBranch)
        case Some(l) => Ok(l.key)
  }

  /** `last_branch_label = chrinc(last_branch_label) if last_branch_label != '-' else 'a'` */
  function NextLetter(last: char): Result<char, LabelError> {
    if last == MainBranch then Ok('a')
    else match Base.ChrInc(last, 1)
      case Ok(c) => Ok(c)
      case Err(_) => Err(LetterOutOfRange)
  }

  /** The link arena with one link's label replaced. */
  function Labelled(links: map<nat, Link>, k: nat, l: Label): map<nat, Link>
    requires k in links
  {
    links[k := links[k].(branchLabel := Some(l))]
  }

  /** The inner loop of the several-children case: each child link in turn gets the next letter at `depth`. */
  function Allocate(st: LabelState, cs: seq<nat>, depth: int): Result<LabelState, LabelError>
    requires forall i | 0 <= i < |cs| :: cs[i] in st.links
    decreases |cs|
  {
    if |cs| == 0 then Ok(st)
    else match NextLetter(st.last)
      case Err(e) => Err(e)
      case Ok(c) =>
        Allocate(LabelState(Labelled(st.links, cs[0], Label(c, depth)), st.lengths[c := depth], c), cs[1..], depth)
  }

  /** The body of the node loop for a node with link table `table`. */
  function LabelNode(st: LabelState, table: Slots, n: NodeRef): Result<LabelState, LabelError> {
    var items := Items(table);
    if !Known(st.links, items) then Err(BrokenTable)
    else
      var cs := ChildLinks(st.links, items, n);
      match ParentKey(st.links, table, n)
      case Err(e) => Err(e)
      case Ok(key) => LabelChildren(st, cs, key)
  }

  /**
   * The node's child links `cs` once the parent's letter `key` is known: a
   * single child continues that branch one deeper, several children each
   * open a new branch at that depth.
   */
  function LabelChildren(st: LabelState, cs: seq<nat>, key: char): Result<LabelState, LabelError>
    requires forall i | 0 <= i < |cs| :: cs[i] in st.links
  {
    if key !in st.lengths then Err(MissingBranch(key))
    else if |cs| == 1 then
      var d := st.lengths[key] + 1;
      Ok(LabelState(Labelled(st.links, cs[0], Label(key, d)), st.lengths[key := d], st.last))
    else Allocate(st, cs, st.lengths[key] + 1)
  }

  /** The node loop over `nodes`, each read with the residue's `links` table of `g`. */
  function LabelAll(g: Graph, nodes: seq<nat>, st: LabelState): Result<LabelState, LabelError> {
    if |nodes| == 0 then Ok(st)
    else match LabelNode(st, Table(g, LinksOf(ResidueNode(nodes[0]))), ResidueNode(nodes[0]))
      case Err(e) => Err(e)
      case Ok(st') => LabelAll(g, nodes[1..], st')
  }

  // ---------------------------------------------------------------------------
  // Letters are allocated afresh

  /**
   * The letters in use are '-' and letters from 'a' up to `last`, which is
   * '-' before the first allocation.
   */
  predicate AllocatedUpTo(lengths: map<char, int>, last: char) {
    MainBranch in lengths &&
    (last == MainBranch || 'a' <= last) &&
    forall k | k in lengths && k != MainBranch :: last != MainBranch && 'a' <= k <= last
  }

  /** Only labels change: the arena keeps its handles and every link its ends, positions and losses. */
  predicate SameBonds(a: map<nat, Link>, b: map<nat, Link>) {
    a.Keys == b.Keys && forall k | k in a :: b[k] == a[k].(branchLabel := b[k].branchLabel)
  }

  /** The next letter is never one already in use, and comes after every letter in use. */
  lemma NextLetterFresh(lengths: map<char, int>, last: char)
    requires AllocatedUpTo(lengths, last) && NextLetter(last).Ok?
    ensures var c := NextLetter(last).value;
      c !in lengths && 'a' <= c && (last != MainBranch ==> last < c) && AllocatedUpTo(lengths[c := 0], c)
  {
  }

  /** The first step of `Allocate`, when the next letter exists. */
  function AllocateStep(st: LabelState, k: nat, c: char, depth: int): LabelState
    requires k in st.links
  {
    LabelState(Labelled(st.links, k, Label(c, depth)), st.lengths[c := depth], c)
  }

  lemma SameBondsStep(a: map<nat, Link>, b: map<nat, Link>, k: nat, l: Label)
    requires SameBonds(a, b) && k in b
    ensures SameBonds(a, Labelled(b, k, l))
  {
  }

  /** One turn of the allocation loop, on the links still to label from `k` on. */
  lemma AllocateSuffixStep(st: LabelState, cs: seq<nat>, k: nat, depth: int)
    requires k < |cs| && forall x | 0 <= x < |cs| :: cs[x] in st.links
    ensures NextLetter(st.last).Err? ==> Allocate(st, cs[k..], depth) == Err(NextLetter(st.last).error)
    ensures NextLetter(st.last).Ok? ==>
      Allocate(st, cs[k..], depth) == Allocate(AllocateStep(st, cs[k], NextLetter(st.last).value, depth), cs[k + 1..], depth)
  {
    assert cs[k..][0] == cs[k] && cs[k..][1..] == cs[k + 1..];
  }

  /** The first step of `Allocate`: the next letter goes to the first link and the rest is allocated from there. */
  lemma AllocateFirst(st: LabelState, cs: seq<nat>, depth: int)
    requires forall i | 0 <= i < |cs| :: cs[i] in st.links
    requires AllocatedUpTo(st.lengths, st.last)
    requires |cs| > 0 && Allocate(st, cs, depth).Ok?
    ensures NextLetter(st.last).Ok?
    ensures var c := NextLetter(st.last).value;
      var st1 := AllocateStep(st, cs[0], c, depth);
      c !in st.lengths && 'a' <= c && (st.last != MainBranch ==> st.last < c) &&
      AllocatedUpTo(st1.lengths, st1.last) &&
      (forall i | 0 <= i < |cs[1..]| :: cs[1..][i] in st1.links) &&
      Allocate(st1, cs[1..], depth) == Allocate(st, cs, depth)
  {
    NextLetterFresh(st.lengths, st.last);
  }

  /** A list holding no link twice: neither does its tail, and the tail does not hold its head. */
  lemma DistinctTail(cs: seq<nat>)
    requires |cs| > 0 && forall i, j | 0 <= i < j < |cs| :: cs[i] != cs[j]
    ensures forall i, j | 0 <= i < j < |cs[1..]| :: cs[1..][i] != cs[1..][j]
    ensures cs[0] !in cs[1..]
  {
    var rest := cs[1..];
    forall i, j | 0 <= i < j < |rest| ensures rest[i] != rest[j] {
      assert rest[i] == cs[i + 1] && rest[j] == cs[j + 1];
    }
    forall i | 0 <= i < |rest| ensures rest[i] != cs[0] {
      assert rest[i] == cs[i + 1];
    }
  }

  /**
   * Allocation keeps the letters in use within 'a'..`last`, changes no
   * existing branch length, gives every new letter the length `depth`,
   * relabels only the listed links and changes no bond.
   */
  lemma {:induction false} AllocateKeeps(st: LabelState, cs: seq<nat>, depth: int)
    requires forall i | 0 <= i < |cs| :: cs[i] in st.links
    requires AllocatedUpTo(st.lengths, st.last)
    requires Allocate(st, cs, depth).Ok?
    decreases |cs|
    ensures var r := Allocate(st, cs, depth).value;
      AllocatedUpTo(r.lengths, r.last) &&
      SameBonds(st.links, r.links) &&
      (st.last == MainBranch || st.last <= r.last) &&
      (forall k | k in st.lengths :: k in r.lengths && r.lengths[k] == st.lengths[k]) &&
      (forall k | k in r.lengths && k !in st.lengths :: r.lengths[k] == depth) &&
      (forall k | k in st.links && k !in cs :: r.links[k] == st.links[k])
  {
    if |cs| == 0 {
      assert SameBonds(st.links, st.links);
    } else {
      AllocateFirst(st, cs, depth);
      var c := NextLetter(st.last).value;
      var st1 := AllocateStep(st, cs[0], c, depth);
      AllocateKeeps(st1, cs[1..], depth);
      var r := Allocate(st1, cs[1..], depth).value;
      assert SameBonds(st.links, st1.links);
      forall k | k in st.links && k !in cs ensures r.links[k] == st.links[k] {
        assert k !in cs[1..];
      }
    }
  }

  /**
   * Each child link, the list holding no link twice, receives a letter not
   * in `branch_lengths` before the allocation (so no letter is reused),
   * later than `last`, recorded in the new `branch_lengths`, at `depth`.
   */
  lemma {:induction false} AllocateLabels(st: LabelState, cs: seq<nat>, depth: int)
    requires forall i | 0 <= i < |cs| :: cs[i] in st.links
    requires forall i, j | 0 <= i < j < |cs| :: cs[i] != cs[j]
    requires AllocatedUpTo(st.lengths, st.last)
    requires Allocate(st, cs, depth).Ok?
    decreases |cs|
    ensures var r := Allocate(st, cs, depth).value;
      forall i | 0 <= i < |cs| ::
        cs[i] in r.links &&
        r.links[cs[i]].branchLabel.Some? &&
        r.links[cs[i]].branchLabel.value.depth == depth &&
        r.links[cs[i]].branchLabel.value.key !in st.lengths &&
        (st.last == MainBranch || st.last < r.links[cs[i]].branchLabel.value.key) &&
        r.links[cs[i]].branchLabel.value.key in r.lengths
  {
    if |cs| > 0 {
      AllocateFirst(st, cs, depth);
      var c := NextLetter(st.last).value;
      var st1 := AllocateStep(st, cs[0], c, depth);
      var rest := cs[1..];
      DistinctTail(cs);
      AllocateLabels(st1, rest, depth);
      AllocateKeeps(st1, rest, depth);
      var r := Allocate(st1, rest, depth).value;
      assert r.links[cs[0]] == st1.links[cs[0]];
      forall i | 0 < i < |cs|
        ensures r.links[cs[i]].branchLabel.Some?
        ensures r.links[cs[i]].branchLabel.value.key !in st.lengths
        ensures c < r.links[cs[i]].branchLabel.value.key
      {
        assert cs[i] == rest[i - 1];
      }
    }
  }

  /** Along the child list the allocated letters strictly increase, so no two children share one. */
  lemma {:induction false} AllocateIncreasing(st: LabelState, cs: seq<nat>, depth: int)
    requires forall i | 0 <= i < |cs| :: cs[i] in st.links
    requires forall i, j | 0 <= i < j < |cs| :: cs[i] != cs[j]
    requires AllocatedUpTo(st.lengths, st.last)
    requires Allocate(st, cs, depth).Ok?
    decreases |cs|
    ensures var r := Allocate(st, cs, depth).value;
      forall i, j | 0 <= i < j < |cs| ::
        cs[i] in r.links && cs[j] in r.links &&
        r.links[cs[i]].branchLabel.Some? && r.links[cs[j]].branchLabel.Some? &&
        r.links[cs[i]].branchLabel.value.key < r.links[cs[j]].branchLabel.value.key
  {
    AllocateLabels(st, cs, depth);
    if |cs| > 0 {
      AllocateFirst(st, cs, depth);
      var c := NextLetter(st.last).value;
      var st1 := AllocateStep(st, cs[0], c, depth);
      var rest := cs[1..];
      DistinctTail(cs);
      AllocateIncreasing(st1, rest, depth);
      AllocateLabels(st1, rest, depth);
      AllocateUntouched(st1, rest, depth, cs[0]);
      var r := Allocate(st1, rest, depth).value;
      assert r.links[cs[0]].branchLabel.value.key == c;
      forall i, j | 0 <= i < j < |cs|
        ensures r.links[cs[i]].branchLabel.value.key < r.links[cs[j]].branchLabel.value.key
      {
        assert cs[j] == rest[j - 1];
        if i > 0 {
          assert cs[i] == rest[i - 1];
        }
      }
    }
  }

  /** A link not in the list keeps its label. */
  lemma AllocateUntouched(st: LabelState, cs: seq<nat>, depth: int, k: nat)
    requires forall i | 0 <= i < |cs| :: cs[i] in st.links
    requires AllocatedUpTo(st.lengths, st.last)
    requires Allocate(st, cs, depth).Ok?
    requires k in st.links && k !in cs
    ensures k in Allocate(st, cs, depth).value.links && Allocate(st, cs, depth).value.links[k] == st.links[k]
  {
    AllocateKeeps(st, cs, depth);
  }

  // ---------------------------------------------------------------------------
  // A node's step and the whole loop

  /**
   * A node with exactly one child link continues the branch of the link it
   * hangs from: the child link gets that letter, one deeper than the
   * branch's length so far, and the branch's length becomes that depth.
   */
  lemma LabelNodeSingle(st: LabelState, table: Slots, n: NodeRef)
    requires Known(st.links, Items(table)) && |ChildLinks(st.links, Items(table), n)| == 1
    requires LabelNode(st, table, n).Ok?
    ensures var key := ParentKey(st.links, table, n);
      var c := ChildLinks(st.links, Items(table), n)[0];
      var r := LabelNode(st, table, n).value;
      key.Ok? && key.value in st.lengths &&
      r.links[c].branchLabel == Some(Label(key.value, st.lengths[key.value] + 1)) &&
      r.lengths == st.lengths[key.value := st.lengths[key.value] + 1] &&
      r.last == st.last
  {
  }

  /**
   * A node with any other number of child links, none listed twice, gives
   * each of them a letter not in `branch_lengths` before, in increasing
   * order, at one more than the length of the branch it hangs from.
   */
  lemma LabelNodeSeveral(st: LabelState, table: Slots, n: NodeRef)
    requires AllocatedUpTo(st.lengths, st.last)
    requires Known(st.links, Items(table))
    requires var cs := ChildLinks(st.links, Items(table), n);
      |cs| != 1 && forall i, j | 0 <= i < j < |cs| :: cs[i] != cs[j]
    requires LabelNode(st, table, n).Ok?
    ensures var key := ParentKey(st.links, table, n);
      var cs := ChildLinks(st.links, Items(table), n);
      var r := LabelNode(st, table, n).value;
      key.Ok? && key.value in st.lengths &&
      (forall i | 0 <= i < |cs| ::
         cs[i] in r.links && r.links[cs[i]].branchLabel.Some? &&
         r.links[cs[i]].branchLabel.value.depth == st.lengths[key.value] + 1 &&
         r.links[cs[i]].branchLabel.value.key !in st.lengths) &&
      (forall i, j | 0 <= i < j < |cs| ::
         cs[i] in r.links && cs[j] in r.links &&
         r.links[cs[i]].branchLabel.Some? && r.links[cs[j]].branchLabel.Some? &&
         r.links[cs[i]].branchLabel.value.key < r.links[cs[j]].branchLabel.value.key)
  {
    var key := ParentKey(st.links, table, n).value;
    var cs := ChildLinks(st.links, Items(table), n);
    AllocateLabels(st, cs, st.lengths[key] + 1);
    AllocateIncreasing(st, cs, st.lengths[key] + 1);
  }

  /** One node's step keeps the letters within 'a'..`last`, changes no bond, and no branch length shrinks or disappears. */
  lemma LabelNodeKeeps(st: LabelState, table: Slots, n: NodeRef)
    requires AllocatedUpTo(st.lengths, st.last)
    requires LabelNode(st, table, n).Ok?
    ensures var r := LabelNode(st, table, n).value;
      AllocatedUpTo(r.lengths, r.last) && SameBonds(st.links, r.links) &&
      forall k | k in st.lengths :: k in r.lengths && st.lengths[k] <= r.lengths[k]
  {
    var key := ParentKey(st.links, table, n).value;
    var cs := ChildLinks(st.links, Items(table), n);
    if |cs| != 1 {
      AllocateKeeps(st, cs, st.lengths[key] + 1);
    }
  }

  lemma SameBondsTrans(a: map<nat, Link>, b: map<nat, Link>, c: map<nat, Link>)
    requires SameBonds(a, b) && SameBonds(b, c)
    ensures SameBonds(a, c)
  {
  }

  /**
   * Over the whole traversal: labelling changes no bond, only ever adds
   * branch letters from 'a' on, and never lowers a branch length.
   */
  lemma {:induction false} LabelAllKeeps(g: Graph, nodes: seq<nat>, st: LabelState)
    requires AllocatedUpTo(st.lengths, st.last)
    requires LabelAll(g, nodes, st).Ok?
    ensures var r := LabelAll(g, nodes, st).value;
      AllocatedUpTo(r.lengths, r.last) && SameBonds(st.links, r.links) &&
      forall k | k in st.lengths :: k in r.lengths && st.lengths[k] <= r.lengths[k]
  {
    if |nodes| == 0 {
      assert SameBonds(st.links, st.links);
    } else {
      var t := Table(g, LinksOf(ResidueNode(nodes[0])));
      LabelNodeKeeps(st, t, ResidueNode(nodes[0]));
      var st1 := LabelNode(st, t, ResidueNode(nodes[0])).value;
      LabelAllKeeps(g, nodes[1..], st1);
      SameBondsTrans(st.links, st1.links, LabelAll(g, nodes[1..], st1).value.links);
    }
  }

  /**
   * `self.branch_lengths["-"] = max(self.branch_lengths.values())`: every
   * letter keeps its length and '-' becomes the largest length of all.
   */
  predicate MainIsLongest(before: map<char, int>, after: map<char, int>) {
    after.Keys == before.Keys &&
    MainBranch in after &&
    (forall k | k in before && k != MainBranch :: after[k] == before[k]) &&
    after[MainBranch] in before.Values &&
    (forall k | k in before :: before[k] <= after[MainBranch])
  }

  /** `max(d.values())` */
  method MaxValue(m: map<char, int>) returns (r: int)
    requires |m| > 0
    ensures r in m.Values && forall k | k in m :: m[k] <= r
  {
    var keys := m.Keys;
    var k0 :| k0 in keys;
    r := m[k0];
    keys := keys - {k0};
    while keys != {}
      invariant keys <= m.Keys
      invariant r in m.Values
      invariant forall k | k in m && k !in keys :: m[k] <= r
      decreases |keys|
    {
      var k :| k in keys;
      if m[k] > r {
        r := m[k];
      }
      keys := keys - {k};
    }
  }

  /** The loop of `ChildLinksOf` keeps its invariant: what is collected so far, followed by what the rest of the table gives, is the whole list. */
  lemma ChildLinksStep(links: map<nat, Link>, items: Entries, j: nat, n: NodeRef, cs: seq<nat>, whole: seq<nat>)
    requires j < |items| && items[j].1 in links
    requires cs + ChildLinks(links, items[j..], n) == whole
    ensures var cs' := if links[items[j].1].child != n then cs + [items[j].1] else cs;
      cs' + ChildLinks(links, items[j + 1..], n) == whole
  {
    assert items[j..][0] == items[j] && items[j..][1..] == items[j + 1..];
    var rest := ChildLinks(links, items[j + 1..], n);
    assert (cs + [items[j].1]) + rest == cs + ([items[j].1] + rest);
  }

  /** The loop of `label_branches` that collects a node's child links. */
  method ChildLinksOf(links: map<nat, Link>, items: Entries, n: NodeRef) returns (cs: seq<nat>)
    requires Known(links, items)
    ensures cs == ChildLinks(links, items, n)
  {
    ghost var whole := ChildLinks(links, items, n);
    cs := [];
    var j := 0;
    assert items[j..] == items;
    while j < |items|
      invariant 0 <= j <= |items|
      invariant cs + ChildLinks(links, items[j..], n) == whole
    {
      ChildLinksStep(links, items, j, n, cs, whole);
      if links[items[j].1].child != n {
        cs := cs + [items[j].1];
      }
      j := j + 1;
    }
    assert items[|items|..] == [];
    assert cs + [] == cs;
  }
}
