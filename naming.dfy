/**
 * `Glycan.name_fragment` (pygly2/structure/glycan.py): the ion types of a
 * fragment are read off its `kind` with the pattern `(\d+,\d+)?(\S)`, paired
 * with the broken link ids, and each pair is named after the branch label of
 * its link.
 */
module FragmentNames {
  import opened Wrappers
  import opened Graphs
  import opened Numerals
  import opened Fragments
  import opened Compositions
  import opened BranchLabels

  /** One match of `(\d+,\d+)?(\S)`: the ring coordinates (empty when the group did not take part) and the ion letter. */
  datatype IonType = IonType(coords: string, letter: char)

  /** Where `name_fragment` raises: no ion type at all, an ion letter outside the direction table, an index outside `link_index`, a link never labelled, a branch missing from `branch_lengths`, a label whose depth does not parse. */
  datatype NameError = NoIonType | UnknownIonKind(c: char) | NoSuchLink(index: int) | Unlabelled | UnknownBranch(key: char) | BadDistance

  // ---------------------------------------------------------------------------
  // The pattern `(\d+,\d+)?(\S)`

  /** The length of the run of digits starting at `i`. */
  function DigitRun(s: string, i: nat): (n: nat)
    requires i <= |s|
    ensures i + n <= |s|
    ensures forall k | i <= k < i + n :: IsDigit(s[k])
    ensures i + n == |s| || !IsDigit(s[i + n])
    decreases |s| - i
  {
    if i < |s| && IsDigit(s[i]) then 1 + DigitRun(s, i + 1) else 0
  }

  /** `(\S)` alone at `i`. */
  function LetterAt(s: string, i: nat): Option<(IonType, nat)>
    requires i < |s|
  {
    if IsSpace(s[i]) then None else Some((IonType("", s[i]), i + 1))
  }

  /**
   * The match anchored at `i`, with the regular expression engine's
   * backtracking: the greedy group followed by a letter; else the group with
   * its second digit run one shorter, whose last digit is then the letter;
   * else the letter alone.
   */
  function MatchAt(s: string, i: nat): (r: Option<(IonType, nat)>)
    requires i < |s|
    ensures r.Some? ==> i < r.value.1 <= |s| && !IsSpace(r.value.0.letter)
  {
    var a := DigitRun(s, i);
    if a >= 1 && i + a < |s| && s[i + a] == ',' then
      var b := DigitRun(s, i + a + 1);
      var j := i + a + 1 + b;
      if b >= 1 && j < |s| && !IsSpace(s[j]) then Some((IonType(s[i..j], s[j]), j + 1))
      else if b >= 2 then Some((IonType(s[i..j - 1], s[j - 1]), j))
      else LetterAt(s, i)
    else LetterAt(s, i)
  }

  /** `re.findall(r"(\d+,\d+)?(\S)", s[i:])`: a position where nothing matches is stepped over. */
  function FindAll(s: string, i: nat): seq<IonType>
    requires i <= |s|
    decreases |s| - i
  {
    if i == |s| then []
    else
      match MatchAt(s, i)
      case Some((t, next)) => [t] + FindAll(s, next)
      case None => FindAll(s, i + 1)
  }

  function IonTypes(kind: string): seq<IonType> {
    FindAll(kind, 0)
  }

  /** No digit and no whitespace: every character is an ion letter of its own. */
  predicate Plain(s: string) {
    forall k | 0 <= k < |s| :: !IsDigit(s[k]) && !IsSpace(s[k])
  }

  /** A kind made of ion letters only, as every glycosidic fragment has, reads as one ion type per letter. */
  lemma {:induction false} PlainKinds(s: string, i: nat)
    requires i <= |s| && Plain(s)
    ensures FindAll(s, i) == seq(|s| - i, k requires 0 <= k < |s| - i => IonType("", s[i + k]))
    decreases |s| - i
  {
    if i < |s| {
      assert DigitRun(s, i) == 0;
      assert MatchAt(s, i) == Some((IonType("", s[i]), i + 1));
      PlainKinds(s, i + 1);
      var all := seq(|s| - i, k requires 0 <= k < |s| - i => IonType("", s[i + k]));
      var rest := seq(|s| - (i + 1), k requires 0 <= k < |s| - (i + 1) => IonType("", s[i + 1 + k]));
      assert all == [IonType("", s[i])] + rest;
    }
  }

  /** A cross-ring ion type is read with its ring coordinates. */
  lemma CrossringKind()
    ensures IonTypes("1,3A") == [IonType("1,3", 'A')]
    ensures IonTypes("0,2XY") == [IonType("0,2", 'X'), IonType("", 'Y')]
  {
    assert DigitRun("1,3A", 3) == 0;
    assert DigitRun("1,3A", 2) == 1;
    assert DigitRun("1,3A", 1) == 0;
    assert DigitRun("1,3A", 0) == 1;
    assert "1,3A"[0..3] == "1,3";
    assert MatchAt("1,3A", 0) == Some((IonType("1,3", 'A'), 4));
    assert DigitRun("0,2XY", 4) == 0;
    assert DigitRun("0,2XY", 3) == 0;
    assert DigitRun("0,2XY", 2) == 1;
    assert DigitRun("0,2XY", 1) == 0;
    assert DigitRun("0,2XY", 0) == 1;
    assert "0,2XY"[0..3] == "0,2";
    assert MatchAt("0,2XY", 0) == Some((IonType("0,2", 'X'), 4));
    assert MatchAt("0,2XY", 4) == Some((IonType("", 'Y'), 5));
  }

  /** With nothing after the coordinates, the engine backtracks and takes the last digit as the letter. */
  lemma CoordinatesBacktrack()
    ensures IonTypes("12,34") == [IonType("12,3", '4')]
  {
    assert DigitRun("12,34", 4) == 1;
    assert DigitRun("12,34", 3) == 2;
    assert DigitRun("12,34", 2) == 0;
    assert DigitRun("12,34", 1) == 1;
    assert DigitRun("12,34", 0) == 2;
    assert "12,34"[0..4] == "12,3";
    assert MatchAt("12,34", 0) == Some((IonType("12,3", '4'), 5));
  }

  // ---------------------------------------------------------------------------
  // Names

  /** `"{}{}".format(label_key, depth)` as `label_branches` writes it. */
  function LabelText(l: Label): string {
    [l.key] + IntToString(l.depth)
  }

  /** `s.replace(MAIN_BRANCH_SYM, "")` */
  function WithoutDashes(s: string): (r: string)
    ensures forall k | 0 <= k < |r| :: r[k] != '-'
  {
    if |s| == 0 then [] else (if s[0] == '-' then [] else [s[0]]) + WithoutDashes(s[1..])
  }

  /** `seq[i]` with Python's negative indices; `None` where Python raises `IndexError`. */
  function PyIndex<T>(s: seq<T>, i: int): (r: Option<T>)
    ensures r.Some? <==> -|s| <= i < |s|
  {
    if 0 <= i < |s| then Some(s[i]) else if -|s| <= i < 0 then Some(s[|s| + i]) else None
  }

  function Direction(letter: char): Result<int, NameError> {
    match FragmentDirection(letter)
    case Some(d) => Ok(d)
    case None => Err(UnknownIonKind(letter))
  }

  function LabelOf(g: Graph, h: nat): Result<string, NameError> {
    if h in g.links && g.links[h].branchLabel.Some? then Ok(LabelText(g.links[h].branchLabel.value)) else Err(Unlabelled)
  }

  /**
   * The name of an ion counted from the non-reducing end: the branch letter
   * (the main branch drops it) and `branch_lengths[key] - (distance - 1)`.
   */
  function InvertedName(prefix: string, text: string, lengths: map<char, int>): Result<string, NameError> {
    if |text| == 0 then Err(Unlabelled)
    else
      var key := text[0];
      match ParseInt(text[1..])
      case None => Err(BadDistance)
      case Some(distance) =>
        if key !in lengths then Err(UnknownBranch(key))
        else Ok(prefix + WithoutDashes([key]) + IntToString(lengths[key] - (distance - 1)))
  }

  /** The name of an ion counted from the reducing end: the label with the main-branch sign dropped. */
  function ForwardName(prefix: string, text: string): string {
    prefix + WithoutDashes(text)
  }

  /** The first link of `link_index` whose child has id `nodeId`. */
  function FirstChildLink(g: Graph, li: seq<nat>, nodeId: int): (r: Option<nat>)
    ensures r.Some? ==> r.value in li && r.value in g.links && NodeId(g, g.links[r.value].child) == nodeId
  {
    if |li| == 0 then None
    else if li[0] in g.links && NodeId(g, g.links[li[0]].child) == nodeId then Some(li[0])
    else FirstChildLink(g, li[1..], nodeId)
  }

  /** The name parts of the cross-ring pairs; a residue no indexed link leads to gives no part. */
  function CrossringParts(g: Graph, li: seq<nat>, lengths: map<char, int>, pairs: seq<(IonType, int)>): Result<seq<string>, NameError> {
    if |pairs| == 0 then Ok([])
    else
      match CrossPart(g, li, lengths, pairs[0].0, FirstChildLink(g, li, pairs[0].1))
      case Err(e) => Err(e)
      case Ok(p) => Prepend(p, CrossringParts(g, li, lengths, pairs[1..]))
  }

  /** The part of one cross-ring ion whose residue is the child of link `found`, if any. */
  function CrossPart(g: Graph, li: seq<nat>, lengths: map<char, int>, t: IonType, found: Option<nat>): Result<seq<string>, NameError> {
    match found
    case None => Ok([])
    case Some(h) =>
      var prefix := t.coords + [t.letter];
      match Direction(t.letter)
      case Err(e) => Err(e)
      case Ok(d) =>
        match LabelOf(g, h)
        case Err(e) => Err(e)
        case Ok(text) =>
          if d > 0 then Ok([ForwardName(prefix, text)])
          else
            match InvertedName(prefix, text, lengths)
            case Err(e) => Err(e)
            case Ok(name) => Ok([name])
  }

  /** `parts` followed by the parts of `r`, or the error of `r`. */
  function Prepend(parts: seq<string>, r: Result<seq<string>, NameError>): Result<seq<string>, NameError> {
    match r
    case Ok(rest) => Ok(parts + rest)
    case Err(e) => Err(e)
  }

  /**
   * The name of one glycosidic pair: an ion holding the reducing end is
   * named after the label of its own link; one holding the non-reducing end
   * after the label of link `counted`.
   */
  function BreakName(g: Graph, li: seq<nat>, lengths: map<char, int>, letter: char, linkId: int, counted: int): Result<string, NameError> {
    match Direction(letter)
    case Err(e) => Err(e)
    case Ok(d) =>
      var ix := if d > 0 then linkId - 1 else counted - 1;
      match PyIndex(li, ix)
      case None => Err(NoSuchLink(ix))
      case Some(h) =>
        match LabelOf(g, h)
        case Err(e) => Err(e)
        case Ok(text) =>
          if d > 0 then Ok(ForwardName([letter], text)) else InvertedName([letter], text, lengths)
  }

  /**
   * The glycosidic name parts. `firstId` is `fragment.link_ids[0]`; when
   * `asWritten` holds, a non-reducing-end ion is named after that link, as
   * the code does, otherwise after its own link.
   */
  function BreakParts(g: Graph, li: seq<nat>, lengths: map<char, int>, pairs: seq<(IonType, int)>, firstId: int, asWritten: bool): Result<seq<string>, NameError> {
    Parts(pairs, PairName(g, li, lengths, firstId, asWritten))
  }

  /** How one glycosidic pair is named, given `fragment.link_ids[0]`. */
  function PairName(g: Graph, li: seq<nat>, lengths: map<char, int>, firstId: int, asWritten: bool): (IonType, int) -> Result<string, NameError> {
    (t: IonType, linkId: int) => BreakName(g, li, lengths, t.letter, linkId, if asWritten then firstId else linkId)
  }

  /** The parts `name` gives the pairs, in order, or the first error. */
  function Parts(pairs: seq<(IonType, int)>, name: (IonType, int) -> Result<string, NameError>): Result<seq<string>, NameError> {
    if |pairs| == 0 then Ok([])
    else
      match name(pairs[0].0, pairs[0].1)
      case Err(e) => Err(e)
      case Ok(part) => Prepend([part], Parts(pairs[1..], name))
  }

  /** `zip(ion_types, links_broken)` */
  function Zip<A, B>(a: seq<A>, b: seq<B>): (r: seq<(A, B)>)
    ensures |r| == if |a| < |b| then |a| else |b|
    ensures forall i | 0 <= i < |r| :: r[i] == (a[i], b[i])
  {
    if |a| == 0 || |b| == 0 then [] else [(a[0], b[0])] + Zip(a[1..], b[1..])
  }

  function Glycosidic(pairs: seq<(IonType, int)>): (r: seq<(IonType, int)>)
    ensures forall i | 0 <= i < |r| :: r[i] in pairs && r[i].0.coords == ""
  {
    if |pairs| == 0 then [] else (if pairs[0].0.coords == "" then [pairs[0]] else []) + Glycosidic(pairs[1..])
  }

  function Crossring(pairs: seq<(IonType, int)>): (r: seq<(IonType, int)>)
    ensures forall i | 0 <= i < |r| :: r[i] in pairs && r[i].0.coords != ""
  {
    if |pairs| == 0 then [] else (if pairs[0].0.coords != "" then [pairs[0]] else []) + Crossring(pairs[1..])
  }

  /** Keys strictly ascending: a dict of link or residue ids, listed in its iteration order. */
  predicate Ascending(es: seq<(IonType, int)>) {
    forall i, j | 0 <= i < j < |es| :: es[i].1 < es[j].1
  }

  /**
   * `d[q.1] = q.0` on the dict `es`: a key already present keeps its place
   * and takes the new value, a new key goes in among the others by size.
   */
  function Assign(es: seq<(IonType, int)>, q: (IonType, int)): (r: seq<(IonType, int)>)
    requires Ascending(es)
    ensures Ascending(r) && q in r
    ensures forall e | e in r :: e == q || (e in es && e.1 != q.1)
    ensures forall e | e in es && e.1 != q.1 :: e in r
  {
    if |es| == 0 then [q]
    else if es[0].1 == q.1 then [q] + es[1..]
    else if q.1 < es[0].1 then [q] + es
    else [es[0]] + Assign(es[1..], q)
  }

  /**
   * `{id: ion_type for ion_type, id in pairs}` in iteration order: later
   * pairs overwrite earlier ones with the same id. CPython 2 files a small
   * non-negative int key in the slot of its own value, so a dict whose ids
   * are below its table size (at least 8) iterates in ascending id.
   */
  function Targets(pairs: seq<(IonType, int)>): (r: seq<(IonType, int)>)
    ensures Ascending(r)
  {
    if |pairs| == 0 then [] else Assign(Targets(pairs[..|pairs| - 1]), pairs[|pairs| - 1])
  }

  /** Pair `i` is the last one with its id, the one whose value the dict keeps. */
  predicate LastOf(pairs: seq<(IonType, int)>, i: int)
    requires 0 <= i < |pairs|
  {
    forall j | i < j < |pairs| :: pairs[j].1 != pairs[i].1
  }

  /**
   * The dict holds exactly the last pair of every id, in ascending id, so
   * it is determined by its pairs.
   */
  lemma TargetsIsDict(pairs: seq<(IonType, int)>)
    ensures Ascending(Targets(pairs))
    ensures forall i | 0 <= i < |pairs| && LastOf(pairs, i) :: pairs[i] in Targets(pairs)
    ensures forall e | e in Targets(pairs) :: exists i | 0 <= i < |pairs| :: e == pairs[i] && LastOf(pairs, i)
  {
    TargetsHoldsLast(pairs);
    TargetsFromLast(pairs);
  }

  lemma {:induction false} TargetsHoldsLast(pairs: seq<(IonType, int)>)
    ensures forall i | 0 <= i < |pairs| && LastOf(pairs, i) :: pairs[i] in Targets(pairs)
  {
    if |pairs| > 0 {
      var n := |pairs| - 1;
      var init := pairs[..n];
      TargetsHoldsLast(init);
      forall i | 0 <= i < n && LastOf(pairs, i) ensures pairs[i] in Targets(pairs) {
        LastOfInit(pairs, i);
      }
    }
  }

  lemma {:induction false} TargetsFromLast(pairs: seq<(IonType, int)>)
    ensures forall e | e in Targets(pairs) :: exists i | 0 <= i < |pairs| :: e == pairs[i] && LastOf(pairs, i)
  {
    if |pairs| > 0 {
      var n := |pairs| - 1;
      var init := pairs[..n];
      TargetsFromLast(init);
      forall e | e in Targets(pairs) ensures exists i | 0 <= i < |pairs| :: e == pairs[i] && LastOf(pairs, i) {
        if e == pairs[n] {
          assert LastOf(pairs, n);
        } else {
          assert e in Targets(init) && e.1 != pairs[n].1;
          var i :| 0 <= i < n && e == init[i] && LastOf(init, i);
          assert e.1 != pairs[n].1;
          LastOfSnoc(pairs, i);
        }
      }
    }
  }

  /** The last pair of its id is also the last in the pairs without the final one. */
  lemma LastOfInit(pairs: seq<(IonType, int)>, i: int)
    requires 0 <= i < |pairs| - 1 && LastOf(pairs, i)
    ensures LastOf(pairs[..|pairs| - 1], i) && pairs[i].1 != pairs[|pairs| - 1].1
  {
    var init := pairs[..|pairs| - 1];
    forall j | i < j < |init| ensures init[j].1 != init[i].1 {
      assert init[j] == pairs[j];
    }
  }

  /** The last pair of its id before the final one stays last when the final one has another id. */
  lemma LastOfSnoc(pairs: seq<(IonType, int)>, i: int)
    requires 0 <= i < |pairs| - 1 && LastOf(pairs[..|pairs| - 1], i)
    requires pairs[i].1 != pairs[|pairs| - 1].1
    ensures LastOf(pairs, i)
  {
    var init := pairs[..|pairs| - 1];
    forall j | i < j < |pairs| ensures pairs[j].1 != pairs[i].1 {
      if j < |pairs| - 1 {
        assert init[j] == pairs[j];
      }
    }
  }

  /** `'-'.join(parts)` */
  function Join(parts: seq<string>): string {
    if |parts| == 0 then "" else if |parts| == 1 then parts[0] else parts[0] + "-" + Join(parts[1..])
  }

  /**
   * `name_fragment(fragment)`: the cross-ring parts first, then the
   * glycosidic ones, each kind in the iteration order of its dict.
   */
  function NameWith(g: Graph, li: seq<nat>, lengths: map<char, int>, f: Fragment, asWritten: bool): Result<string, NameError> {
    var types := IonTypes(f.kind);
    if |types| == 0 then Err(NoIonType)
    else
      var pairs := Zip(types, f.linkIds);
      var firstId := if |f.linkIds| > 0 then f.linkIds[0] else 0;
      match CrossringParts(g, li, lengths, Targets(Crossring(pairs)))
      case Err(e) => Err(e)
      case Ok(cross) =>
        match BreakParts(g, li, lengths, Targets(Glycosidic(pairs)), firstId, asWritten)
        case Err(e) => Err(e)
        case Ok(glyco) => Ok(Join(cross + glyco))
  }

  /** `name_fragment` as the code is written: every non-reducing-end ion is named after the first broken link. */
  function NameFragmentAsWritten(g: Graph, li: seq<nat>, lengths: map<char, int>, f: Fragment): Result<string, NameError> {
    NameWith(g, li, lengths, f, true)
  }

  /** `name_fragment` with every ion named after its own link. */
  function NameFragmentOf(g: Graph, li: seq<nat>, lengths: map<char, int>, f: Fragment): Result<string, NameError> {
    NameWith(g, li, lengths, f, false)
  }

  // ---------------------------------------------------------------------------
  // What the names say

  lemma {:induction false} ZipSnoc<A, B>(a: seq<A>, b: seq<B>, x: A, y: B)
    requires |a| == |b|
    ensures Zip(a + [x], b + [y]) == Zip(a, b) + [(x, y)]
  {
    var r := Zip(a + [x], b + [y]);
    assert |r| == |a| + 1;
    assert forall i | 0 <= i < |a| :: r[i] == (a[i], b[i]);
  }

  lemma {:induction false} GlycosidicSnoc(pairs: seq<(IonType, int)>, q: (IonType, int))
    requires q.0.coords == ""
    ensures Glycosidic(pairs + [q]) == Glycosidic(pairs) + [q]
    ensures Crossring(pairs + [q]) == Crossring(pairs)
  {
    if |pairs| == 0 {
      assert pairs + [q] == [q];
    } else {
      assert (pairs + [q])[1..] == pairs[1..] + [q];
      GlycosidicSnoc(pairs[1..], q);
    }
  }

  /** Without ring coordinates, no pair is a cross-ring one. */
  lemma {:induction false} NoCrossring(pairs: seq<(IonType, int)>)
    requires forall i | 0 <= i < |pairs| :: pairs[i].0.coords == ""
    ensures Crossring(pairs) == []
  {
    if |pairs| > 0 {
      NoCrossring(pairs[1..]);
    }
  }

  lemma {:induction false} PartsSnoc(pairs: seq<(IonType, int)>, q: (IonType, int), name: (IonType, int) -> Result<string, NameError>, parts: seq<string>, p: string)
    requires Parts(pairs, name) == Ok(parts)
    requires name(q.0, q.1) == Ok(p)
    ensures Parts(pairs + [q], name) == Ok(parts + [p])
  {
    if |pairs| == 0 {
      assert parts == [];
      assert pairs + [q] == [q];
      assert [q][1..] == [];
      assert Parts([], name) == Ok([]);
      assert [p] + [] == [p];
      assert Parts([q], name) == Ok([p]);
      assert parts + [p] == [p];
    } else {
      var ps := pairs + [q];
      assert ps[0] == pairs[0];
      assert ps[1..] == pairs[1..] + [q];
      var first := name(pairs[0].0, pairs[0].1);
      var rest := Parts(pairs[1..], name);
      assert first.Ok? && rest.Ok? && parts == [first.value] + rest.value;
      PartsSnoc(pairs[1..], q, name, rest.value, p);
      assert Parts(ps, name) == Ok([first.value] + (rest.value + [p]));
      assert parts + [p] == [first.value] + (rest.value + [p]);
    }
  }

  lemma {:induction false} JoinSnoc(parts: seq<string>, p: string)
    requires |parts| > 0
    ensures Join(parts + [p]) == Join(parts) + "-" + p
  {
    if |parts| > 1 {
      assert (parts + [p])[1..] == parts[1..] + [p];
      JoinSnoc(parts[1..], p);
    } else {
      assert parts + [p] == [parts[0], p];
    }
  }

  /** A glycosidic fragment with as many ion letters as broken links. */
  predicate GlycosidicFragment(f: Fragment) {
    Plain(f.kind) && |f.kind| == |f.linkIds|
  }

  /** The pairs of a glycosidic fragment: each letter with its link, none cross-ring. */
  lemma GlycosidicPairs(f: Fragment)
    requires GlycosidicFragment(f)
    ensures var pairs := Zip(IonTypes(f.kind), f.linkIds);
      |pairs| == |f.kind| && (forall i | 0 <= i < |pairs| :: pairs[i] == (IonType("", f.kind[i]), f.linkIds[i])) &&
      Crossring(pairs) == []
  {
    PlainKinds(f.kind, 0);
    NoCrossring(Zip(IonTypes(f.kind), f.linkIds));
  }

  lemma {:induction false} GlycosidicAll(pairs: seq<(IonType, int)>)
    requires forall i | 0 <= i < |pairs| :: pairs[i].0.coords == ""
    ensures Glycosidic(pairs) == pairs
  {
    if |pairs| > 0 {
      GlycosidicAll(pairs[1..]);
    }
  }

  function JoinParts(r: Result<seq<string>, NameError>): Result<string, NameError> {
    match r
    case Ok(parts) => Ok(Join(parts))
    case Err(e) => Err(e)
  }

  /**
   * A glycosidic fragment's name joins the parts of its `break_targets`
   * dict: one per broken link, in ascending link id, each letter named as
   * `asWritten` says.
   */
  lemma NameGlycosidic(g: Graph, li: seq<nat>, lengths: map<char, int>, f: Fragment, asWritten: bool)
    requires GlycosidicFragment(f) && |f.kind| > 0
    ensures NameWith(g, li, lengths, f, asWritten) == JoinParts(Parts(Targets(Zip(IonTypes(f.kind), f.linkIds)), PairName(g, li, lengths, f.linkIds[0], asWritten)))
  {
    GlycosidicPairs(f);
    var pairs := Zip(IonTypes(f.kind), f.linkIds);
    GlycosidicAll(pairs);
    assert Targets(Crossring(pairs)) == [];
    assert CrossringParts(g, li, lengths, Targets(Crossring(pairs))) == Ok([]);
    var r := BreakParts(g, li, lengths, Targets(pairs), f.linkIds[0], asWritten);
    if r.Ok? {
      assert [] + r.value == r.value;
    }
  }

  /** The fragment `f` cut once more, at link `id`, for ion letter `k` (its composition does not enter the name). */
  function CutAgain(f: Fragment, k: char, id: int): Fragment {
    Fragment(f.kind + [k], f.linkIds + [id], f.included, f.composition)
  }

  /** The dict of the extended fragment is the old dict with the new link assigned. */
  lemma ExtendedTargets(f: Fragment, k: char, id: int)
    requires GlycosidicFragment(f) && !IsDigit(k) && !IsSpace(k)
    ensures GlycosidicFragment(CutAgain(f, k, id))
    ensures var pairs := Zip(IonTypes(f.kind), f.linkIds);
      Targets(Zip(IonTypes(CutAgain(f, k, id).kind), CutAgain(f, k, id).linkIds)) == Assign(Targets(pairs), (IonType("", k), id))
    ensures forall e | e in Targets(Zip(IonTypes(f.kind), f.linkIds)) :: e.1 in f.linkIds
    ensures |f.kind| > 0 ==> |Targets(Zip(IonTypes(f.kind), f.linkIds))| > 0
  {
    var f' := CutAgain(f, k, id);
    PlainKinds(f.kind, 0);
    PlainKinds(f'.kind, 0);
    assert IonTypes(f'.kind) == IonTypes(f.kind) + [IonType("", k)];
    var pairs := Zip(IonTypes(f.kind), f.linkIds);
    ZipSnoc(IonTypes(f.kind), f.linkIds, IonType("", k), id);
    assert (pairs + [(IonType("", k), id)])[..|pairs|] == pairs;
    TargetsFromLast(pairs);
    if |pairs| > 0 {
      assert LastOf(pairs, |pairs| - 1);
      TargetsHoldsLast(pairs);
    }
  }

  /** A new key above every key is assigned at the end. */
  lemma {:induction false} AssignAbove(es: seq<(IonType, int)>, q: (IonType, int))
    requires Ascending(es) && forall e | e in es :: e.1 < q.1
    ensures Assign(es, q) == es + [q]
  {
    if |es| > 0 {
      assert es[0] in es;
      AssignAbove(es[1..], q);
      assert [es[0]] + (es[1..] + [q]) == es + [q];
    }
  }

  /**
   * Corrected, cutting a glycosidic fragment once more at a link whose id
   * is above all its broken links' ids puts that link's own part last.
   */
  lemma NameExtends(g: Graph, li: seq<nat>, lengths: map<char, int>, f: Fragment, k: char, id: int, n: string, p: string)
    requires GlycosidicFragment(f) && |f.kind| > 0 && !IsDigit(k) && !IsSpace(k)
    requires forall i | 0 <= i < |f.linkIds| :: f.linkIds[i] < id
    requires NameFragmentOf(g, li, lengths, f) == Ok(n)
    requires BreakName(g, li, lengths, k, id, id) == Ok(p)
    ensures NameFragmentOf(g, li, lengths, CutAgain(f, k, id)) == Ok(n + "-" + p)
  {
    var f' := CutAgain(f, k, id);
    ExtendedTargets(f, k, id);
    var ts := Targets(Zip(IonTypes(f.kind), f.linkIds));
    AssignAbove(ts, (IonType("", k), id));
    NameGlycosidic(g, li, lengths, f, false);
    NameGlycosidic(g, li, lengths, f', false);
    var name := PairName(g, li, lengths, f.linkIds[0], false);
    assert f'.linkIds[0] == f.linkIds[0];
    var parts := Parts(ts, name).value;
    assert name(IonType("", k), id) == Ok(p);
    PartsSnoc(ts, (IonType("", k), id), name, parts, p);
    PartsLength(ts, name);
    JoinSnoc(parts, p);
  }

  /**
   * Corrected, cutting a glycosidic fragment once more at a link whose id
   * is below all its broken links' ids puts that link's own part first.
   * `break_links` appends the outer link after the inner ones; when those lie
   * below it and links are numbered from the root, their ids are larger.
   */
  lemma NamePrepends(g: Graph, li: seq<nat>, lengths: map<char, int>, f: Fragment, k: char, id: int, n: string, p: string)
    requires GlycosidicFragment(f) && |f.kind| > 0 && !IsDigit(k) && !IsSpace(k)
    requires forall i | 0 <= i < |f.linkIds| :: id < f.linkIds[i]
    requires NameFragmentOf(g, li, lengths, f) == Ok(n)
    requires BreakName(g, li, lengths, k, id, id) == Ok(p)
    ensures NameFragmentOf(g, li, lengths, CutAgain(f, k, id)) == Ok(p + "-" + n)
  {
    var f' := CutAgain(f, k, id);
    ExtendedTargets(f, k, id);
    var ts := Targets(Zip(IonTypes(f.kind), f.linkIds));
    var q := (IonType("", k), id);
    assert ts[0] in ts;
    assert Assign(ts, q) == [q] + ts;
    NameGlycosidic(g, li, lengths, f, false);
    NameGlycosidic(g, li, lengths, f', false);
    var name := PairName(g, li, lengths, f.linkIds[0], false);
    assert f'.linkIds[0] == f.linkIds[0];
    var parts := Parts(ts, name).value;
    assert ([q] + ts)[0] == q && ([q] + ts)[1..] == ts;
    assert Parts([q] + ts, name) == Ok([p] + parts);
    PartsLength(ts, name);
    assert ([p] + parts)[1..] == parts;
  }

  lemma {:induction false} PartsLength(pairs: seq<(IonType, int)>, name: (IonType, int) -> Result<string, NameError>)
    requires Parts(pairs, name).Ok?
    ensures |Parts(pairs, name).value| == |pairs|
  {
    if |pairs| > 0 {
      PartsLength(pairs[1..], name);
    }
  }

  /** A fragment of one glycosidic cleavage is named by its one part, and there the code as written agrees. */
  lemma NameSingle(g: Graph, li: seq<nat>, lengths: map<char, int>, k: char, id: int, included: seq<int>, c: Composition)
    requires !IsDigit(k) && !IsSpace(k)
    ensures var f := Fragment([k], [id], included, c);
      NameFragmentOf(g, li, lengths, f) == NameFragmentAsWritten(g, li, lengths, f) &&
      NameFragmentOf(g, li, lengths, f) == match BreakName(g, li, lengths, k, id, id) case Ok(p) => Ok(p) case Err(e) => Err(e)
  {
    var f := Fragment([k], [id], included, c);
    GlycosidicPairs(f);
    var pairs := Zip(IonTypes(f.kind), f.linkIds);
    assert pairs == [(IonType("", k), id)];
    assert pairs[..0] == [];
    assert Targets(pairs) == pairs;
    GlycosidicAll(pairs);
    var n1 := PairName(g, li, lengths, id, false);
    var n2 := PairName(g, li, lengths, id, true);
    assert n1(pairs[0].0, pairs[0].1) == n2(pairs[0].0, pairs[0].1);
    assert pairs[1..] == [];
    assert Parts(pairs[1..], n1) == Parts(pairs[1..], n2) == Ok([]);
    assert Parts(pairs, n1) == Parts(pairs, n2);
    assert BreakParts(g, li, lengths, pairs, id, false) == BreakParts(g, li, lengths, pairs, id, true);
  }

  /** One link of the chain below: id `id` from residue `p` to residue `p + 1`, carrying `l`. */
  function ChainLink(id: int, p: nat, l: Option<Label>): Link {
    Link(id, ResidueNode(p), ResidueNode(p + 1), At(4), At(1), EmptyComposition, EmptyComposition, true, l)
  }

  /** The links of a chain of three residues before labelling: link 0 (id 1) from residue 0 to 1, link 1 (id 2) from 1 to 2. */
  function BareChainLinks(): map<nat, Link> {
    map[0 := ChainLink(1, 0, None), 1 := ChainLink(2, 1, None)]
  }

  /** The chain with the labels `label_branches` gives it: both links on the main branch, at depths 1 and 2. */
  function ChainGraph(): Graph {
    Graph(map[], map[], map[], map[], map[], map[0 := ChainLink(1, 0, Some(Label(MainBranch, 1))), 1 := ChainLink(2, 1, Some(Label(MainBranch, 2)))], 2)
  }

  /**
   * The node steps of `label_branches` on the bare chain: residue 0 has
   * child link 0 and no parent, so '-'; residue 1 has child link 1 and hangs
   * from link 0, labelled with '-'; residue 2 has no child link. Each single
   * child continues the main branch, which ends at length 2, already the
   * largest length.
   */
  lemma ChainLabels()
    ensures var s1 := LabelChildren(StartLabels(BareChainLinks()), [0], MainBranch);
      s1.Ok? && 1 in s1.value.links && s1.value.links[0].branchLabel == Some(Label(MainBranch, 1)) &&
      var s2 := LabelChildren(s1.value, [1], MainBranch);
      s2.Ok? && LabelChildren(s2.value, [], MainBranch) == s2 &&
      s2.value.links == ChainGraph().links && s2.value.lengths == map[MainBranch := 2] &&
      MainIsLongest(s2.value.lengths, map[MainBranch := 2])
    ensures LabelOf(ChainGraph(), 0) == Ok("-1") && LabelOf(ChainGraph(), 1) == Ok("-2")
  {
    var s1 := LabelChildren(StartLabels(BareChainLinks()), [0], MainBranch);
    var bare := BareChainLinks();
    assert s1.value.links == bare[0 := ChainLink(1, 0, Some(Label(MainBranch, 1)))];
    assert s1.value.lengths == map[MainBranch := 1];
    var s2 := LabelChildren(s1.value, [1], MainBranch);
    assert s2.value.links == ChainGraph().links;
    assert Allocate(s2.value, [], 3) == s2;
    assert map[MainBranch := 2][MainBranch] == 2;
    assert NatString(1) == "1" && NatString(2) == "2";
    assert IntToString(1) == "1" && IntToString(2) == "2";
    assert LabelText(Label('-', 1)) == "-1" && LabelText(Label('-', 2)) == "-2";
    var g := ChainGraph();
    assert g.links[0].branchLabel == Some(Label('-', 1));
    assert g.links[1].branchLabel == Some(Label('-', 2));
  }

  lemma ChainInverted(lengths: map<char, int>)
    requires lengths == map['-' := 2]
    ensures InvertedName("B", "-1", lengths) == Ok("B2")
    ensures InvertedName("B", "-2", lengths) == Ok("B1")
  {
    ParseIntToString(1);
    ParseIntToString(2);
    assert IntToString(1) == "1" && IntToString(2) == "2";
    assert "-1"[1..] == "1" && "-2"[1..] == "2";
    assert WithoutDashes("-") == "";
    assert "B" + "" + "2" == "B2" && "B" + "" + "1" == "B1";
  }

  /** The ion names of the two links of `ChainGraph`, with `branch_lengths` `{'-': 2}`. */
  lemma ChainBreakNames(g: Graph, li: seq<nat>, lengths: map<char, int>)
    requires g == ChainGraph() && li == [0, 1] && lengths == map['-' := 2]
    ensures BreakName(g, li, lengths, 'Y', 2, 2) == Ok("Y2")
    ensures BreakName(g, li, lengths, 'B', 1, 1) == Ok("B2")
    ensures BreakName(g, li, lengths, 'B', 1, 2) == Ok("B1")
  {
    ChainLabels();
    ChainInverted(lengths);
    assert Direction('Y') == Ok(1) by { assert 'Y' in "XYZ"; }
    assert Direction('B') == Ok(-1) by { assert 'B' in "ABC"; }
    assert WithoutDashes("-2") == "2";
    assert ForwardName("Y", "-2") == "Y2";
  }

  /**
   * Cutting the chain at both links, as `break_links` does, gives the `YB`
   * ion between them with link ids `[2, 1]`: the outer cut is recorded after
   * the inner one. The dict puts the B part (link 1) first. The code as
   * written names it after `link_ids[0]`, link 2; named after its own link it
   * is `B2`.
   */
  lemma NameAsWrittenMisnames(g: Graph, li: seq<nat>, lengths: map<char, int>, f: Fragment)
    requires g == ChainGraph() && li == [0, 1] && lengths == map['-' := 2]
    requires f.kind == "YB" && f.linkIds == [2, 1]
    ensures NameFragmentAsWritten(g, li, lengths, f) == Ok("B1-Y2")
    ensures NameFragmentOf(g, li, lengths, f) == Ok("B2-Y2")
  {
    ChainBreakNames(g, li, lengths);
    NameYB(g, li, lengths, f, true, "B1", "Y2");
    NameYB(g, li, lengths, f, false, "B2", "Y2");
    ChainJoins();
  }

  lemma ChainJoins()
    ensures "B1" + "-" + "Y2" == "B1-Y2" && "B2" + "-" + "Y2" == "B2-Y2"
  {
  }

  /** A `YB` fragment over links 2 and 1 is named by its B part and then its Y part, the B part's distance taken as `asWritten` says. */
  lemma NameYB(g: Graph, li: seq<nat>, lengths: map<char, int>, f: Fragment, asWritten: bool, a: string, b: string)
    requires f.kind == "YB" && f.linkIds == [2, 1]
    requires BreakName(g, li, lengths, 'B', 1, if asWritten then 2 else 1) == Ok(a)
    requires BreakName(g, li, lengths, 'Y', 2, 2) == Ok(b)
    ensures NameWith(g, li, lengths, f, asWritten) == Ok(a + "-" + b)
  {
    var pairs := Zip(IonTypes(f.kind), f.linkIds);
    ChainPairs(f);
    NameGlycosidic(g, li, lengths, f, asWritten);
    TwoParts(Targets(pairs), PairName(g, li, lengths, 2, asWritten));
    assert Join([a, b]) == a + "-" + b by { assert [a, b][1..] == [b]; }
  }

  lemma ChainPairs(f: Fragment)
    requires f.kind == "YB" && f.linkIds == [2, 1]
    ensures GlycosidicFragment(f)
    ensures Targets(Zip(IonTypes(f.kind), f.linkIds)) == [(IonType("", 'B'), 1), (IonType("", 'Y'), 2)]
  {
    GlycosidicPairs(f);
    var pairs := Zip(IonTypes(f.kind), f.linkIds);
    assert pairs == [(IonType("", 'Y'), 2), (IonType("", 'B'), 1)];
    assert pairs[..1] == [(IonType("", 'Y'), 2)] && pairs[..1][..0] == [];
    assert Targets(pairs[..1]) == [(IonType("", 'Y'), 2)];
  }

  lemma TwoParts(pairs: seq<(IonType, int)>, name: (IonType, int) -> Result<string, NameError>)
    requires |pairs| == 2 && name(pairs[0].0, pairs[0].1).Ok? && name(pairs[1].0, pairs[1].1).Ok?
    ensures Parts(pairs, name) == Ok([name(pairs[0].0, pairs[0].1).value, name(pairs[1].0, pairs[1].1).value])
  {
    var a, b := name(pairs[0].0, pairs[0].1).value, name(pairs[1].0, pairs[1].1).value;
    assert pairs[1..][0] == pairs[1];
    assert pairs[1..][1..] == [];
    assert Parts([], name) == Ok([]);
    assert [b] + [] == [b];
    assert Parts(pairs[1..], name) == Ok([b]);
    assert [a] + [b] == [a, b];
  }

  lemma PrependAssoc(a: seq<string>, b: seq<string>, r: Result<seq<string>, NameError>)
    ensures Prepend(a, Prepend(b, r)) == Prepend(a + b, r)
  {
    if r.Ok? {
      assert a + (b + r.value) == (a + b) + r.value;
    }
  }

  lemma PrependNil(r: Result<seq<string>, NameError>)
    ensures Prepend([], r) == r
  {
    if r.Ok? {
      assert [] + r.value == r.value;
    }
  }

  lemma {:induction false} PartsAgree(pairs: seq<(IonType, int)>, n1: (IonType, int) -> Result<string, NameError>, n2: (IonType, int) -> Result<string, NameError>)
    requires forall i | 0 <= i < |pairs| :: n1(pairs[i].0, pairs[i].1) == n2(pairs[i].0, pairs[i].1)
    ensures Parts(pairs, n1) == Parts(pairs, n2)
  {
    if |pairs| > 0 {
      assert n1(pairs[0].0, pairs[0].1) == n2(pairs[0].0, pairs[0].1);
      PartsAgree(pairs[1..], n1, n2);
    }
  }

  /** Glycosidic names read only the links: breaking and re-attaching links leaves them as they were. */
  lemma NameSameLinks(g1: Graph, g2: Graph, li: seq<nat>, lengths: map<char, int>, f: Fragment)
    requires g1.links == g2.links && GlycosidicFragment(f)
    ensures NameFragmentOf(g1, li, lengths, f) == NameFragmentOf(g2, li, lengths, f)
  {
    if |f.kind| > 0 {
      NameGlycosidic(g1, li, lengths, f, false);
      NameGlycosidic(g2, li, lengths, f, false);
      PartsSameLinks(g1, g2, li, lengths, Targets(Zip(IonTypes(f.kind), f.linkIds)), f.linkIds[0]);
    } else {
      PlainKinds(f.kind, 0);
    }
  }

  /** Every pair is named alike over two graphs with the same links. */
  lemma PartsSameLinks(g1: Graph, g2: Graph, li: seq<nat>, lengths: map<char, int>, pairs: seq<(IonType, int)>, firstId: int)
    requires g1.links == g2.links
    ensures Parts(pairs, PairName(g1, li, lengths, firstId, false)) == Parts(pairs, PairName(g2, li, lengths, firstId, false))
  {
    var n1 := PairName(g1, li, lengths, firstId, false);
    var n2 := PairName(g2, li, lengths, firstId, false);
    forall i | 0 <= i < |pairs| ensures n1(pairs[i].0, pairs[i].1) == n2(pairs[i].0, pairs[i].1) {
      BreakNameSameLinks(g1, g2, li, lengths, pairs[i].0.letter, pairs[i].1);
    }
    PartsAgree(pairs, n1, n2);
  }

  /** An ion's name reads only its link's branch label. */
  lemma BreakNameSameLinks(g1: Graph, g2: Graph, li: seq<nat>, lengths: map<char, int>, letter: char, id: int)
    requires g1.links == g2.links
    ensures BreakName(g1, li, lengths, letter, id, id) == BreakName(g2, li, lengths, letter, id, id)
  {
    assert forall h :: LabelOf(g1, h) == LabelOf(g2, h);
  }
}
