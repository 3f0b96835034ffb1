/**
 * Position bookkeeping of a monosaccharide residue
 * (pygly2/structure/monosaccharide.py): occupancy, modifications, the
 * reducing end, substituent and glycosidic links, and ring-type
 * classification. Every operation takes the graph and a residue handle and
 * returns the new graph, or the error the source raises; an error leaves the
 * graph as it was, because the source checks before it changes anything.
 */
module Monosaccharides {
  import opened Wrappers
  import opened MultiMaps
  import opened Enums
  import opened Constants
  import opened Compositions
  import opened Graphs

  /** The exceptions of the add/drop operations. */
  datatype EditError =
    | IndexOutOfBounds       // IndexError("Index out of bounds")
    | SiteOccupied           // ValueError("Site is already occupied")
    | ChildSiteOccupied      // ValueError("Child Site is already occupied")
    | ModificationNotFound   // ValueError from the failed pop
    | SubstituentNotFound    // IndexError("No matching substituent found ...")
    | TooManyLinks           // ValueError("Too many monosaccharides found")
    | LinkNotFound           // ValueError("No matching monosaccharide found ...")
    | NameOfNone             // AttributeError: `None.name`
    | NoComposition          // AttributeError: `modification.composition` on a member

  type Modifications = MultiMap<Position, Modifier>

  function Mods(g: Graph, h: nat): Modifications
    requires h in g.residues
  {
    g.residues[h].modifications
  }

  function WithMods(g: Graph, h: nat, m: Modifications): Graph
    requires h in g.residues
  {
    g.(residues := g.residues[h := g.residues[h].(modifications := m)])
  }

  function WithComposition(g: Graph, n: NodeRef, c: Composition): Graph {
    g.(compositions := g.compositions[n := c])
  }

  /** A SuperClass member carries its number of carbons; `x` carries None. */
  function BackboneSize(r: Residue): Option<int> {
    if r.superclass.value.IntKey? then Some(r.superclass.value.i) else None
  }

  /** The unknown positions: `-1` and `'x'`. */
  predicate UnknownPosition(p: Position) {
    p == At(-1) || p == X
  }

  /**
   * `position > superclass.value` under Python 2 ordering: None sorts below
   * every int and every int below every string, so `'x'` lies above any
   * backbone and every position lies above an unknown (None) backbone.
   */
  predicate AboveBackboneAsWritten(p: Position, size: Option<int>) {
    p.X? || size.None? || p.n > size.value
  }

  /** The comparison as evidently intended: `'x'` is never out of range. */
  predicate AboveBackbone(p: Position, size: Option<int>) {
    p.At? && (size.None? || p.n > size.value)
  }

  /** `position < floor and position not in {'x', -1}`: a string is never below an int. */
  predicate BelowBackbone(p: Position, floor: int) {
    p.At? && p.n < floor && p.n != -1
  }

  /** Whether `Modification.keto in modifications[position]`. */
  predicate HasKeto(vs: seq<Modifier>) {
    exists i | 0 <= i < |vs| :: vs[i].Mod? && Eq(Keto, vs[i].m)
  }

  /** Everything that sits at `p`: links, modifications and substituent links, a keto not counting. */
  function Occupants(g: Graph, h: nat, p: Position): int
    requires h in g.residues
  {
    var ms := Get(Mods(g, h), p);
    |Get(Table(g, LinksOf(ResidueNode(h))), p)| + |ms| + |Get(Table(g, SubstituentLinksOf(h)), p)|
      - (if HasKeto(ms) then 1 else 0)
  }

  /** With the modifications kept, occupancy moves by exactly what the two link tables gain. */
  lemma OccupantsChange(g: Graph, r: Graph, h: nat, q: Position, dLinks: int, dSubstituents: int)
    requires h in g.residues && h in r.residues && Mods(r, h) == Mods(g, h)
    requires |Get(Table(r, LinksOf(ResidueNode(h))), q)| == |Get(Table(g, LinksOf(ResidueNode(h))), q)| + dLinks
    requires |Get(Table(r, SubstituentLinksOf(h)), q)| == |Get(Table(g, SubstituentLinksOf(h)), q)| + dSubstituents
    ensures Occupants(r, h, q) == Occupants(g, h, q) + dLinks + dSubstituents
  {
  }

  /** `is_occupied(position)` as written: `'x'` fails the upper bound and never reaches its own branch. */
  function IsOccupiedAsWritten(g: Graph, h: nat, p: Position): Result<int, EditError>
    requires h in g.residues
  {
    var size := BackboneSize(g.residues[h]);
    if AboveBackboneAsWritten(p, size) || BelowBackbone(p, 1) then Err(IndexOutOfBounds)
    else if UnknownPosition(p) then Ok(0)
    else Ok(Occupants(g, h, p))
  }

  /**
   * `is_occupied(position)` with the bound test as intended: a position past
   * the backbone or below 1 (other than the unknowns) is an error, an unknown
   * position is always free, and any other position reports its occupants.
   */
  function IsOccupied(g: Graph, h: nat, p: Position): (r: Result<int, EditError>)
    requires h in g.residues
    ensures r.Err? <==> AboveBackbone(p, BackboneSize(g.residues[h])) || BelowBackbone(p, 1)
    ensures r.Err? ==> r.error == IndexOutOfBounds
    ensures r.Ok? ==> r.value >= 0
    ensures r.Ok? && UnknownPosition(p) ==> r.value == 0
  {
    var size := BackboneSize(g.residues[h]);
    if AboveBackbone(p, size) || BelowBackbone(p, 1) then Err(IndexOutOfBounds)
    else if UnknownPosition(p) then Ok(0)
    else Ok(Occupants(g, h, p))
  }

  /**
   * As written, asking about the unknown position `'x'` always raises
   * IndexError, so the branch that reports it free is never reached; with the
   * intended bound it is free on every residue.
   */
  lemma UnknownPositionRejectedAsWritten(g: Graph, h: nat)
    requires h in g.residues
    ensures IsOccupiedAsWritten(g, h, X) == Err(IndexOutOfBounds)
    ensures IsOccupied(g, h, X) == Ok(0)
  {
  }

  /** Both versions agree on every numbered position. */
  lemma IsOccupiedAgreesOnNumbers(g: Graph, h: nat, n: int)
    requires h in g.residues
    ensures IsOccupiedAsWritten(g, h, At(n)) == IsOccupied(g, h, At(n))
  {
  }

  /** A check that passes `is_occupied` also passes the drop operations' looser lower bound (0 rather than 1). */
  lemma OccupiedCheckImpliesDropCheck(g: Graph, h: nat, p: Position)
    requires h in g.residues && IsOccupied(g, h, p).Ok?
    ensures !AboveBackbone(p, BackboneSize(g.residues[h])) && !BelowBackbone(p, 0)
  {
  }

  // ---------------------------------------------------------------------------
  // The reducing end

  /** The first reduced end in item order (what the `reducing_end` getter finds). */
  function FirstMarker(items: seq<(Position, Modifier)>): (r: Option<nat>)
    ensures r.None? <==> forall i | 0 <= i < |items| :: !items[i].1.ReducedMarker?
    ensures r.Some? ==> exists i | 0 <= i < |items| :: items[i].1 == ReducedMarker(r.value)
  {
    if |items| == 0 then None
    else if items[0].1.ReducedMarker? then Some(items[0].1.h)
    else
      var r := FirstMarker(items[1..]);
      assert forall i | 1 <= i < |items| :: items[i] == items[1..][i - 1];
      r
  }

  function ReducingEndOf(m: Modifications): Option<nat> {
    FirstMarker(Items(m))
  }

  /**
   * The `reducing_end` setter: the current reduced end is popped from
   * position 1, and a new one, if any, is stored at position 1.
   */
  function SetMarker(m: Modifications, v: Option<nat>): Modifications {
    var m1 :=
      match ReducingEndOf(m)
      case None => m
      case Some(k) => (match Pop(m, At(1), ReducedMarker(k)) case Ok((m', _)) => m' case Err(_) => m);
    if v.Some? then Put(m1, At(1), ReducedMarker(v.value)) else m1
  }

  function SetReducingEnd(g: Graph, h: nat, v: Option<nat>): Graph
    requires h in g.residues
  {
    WithMods(g, h, SetMarker(Mods(g, h), v))
  }

  /** A fresh `ReducedEnd()`: composition H2, valence 2, no substituents; `id` stands for the random default id. */
  function NewReducedEnd(g: Graph, id: int): (Graph, nat) {
    (g.(reducedEnds := g.reducedEnds[g.next := ReducedEnd(id, 2)],
        compositions := g.compositions[ReducedEndNode(g.next) := Composition(h := 2)],
        next := g.next + 1), g.next)
  }

  /** A well-formed modification table lists no reduced end exactly when none of its lists holds one. */
  lemma NoMarkerIff(m: Modifications)
    requires Valid(m)
    ensures ReducingEndOf(m).None? <==> forall k, x | x in Get(m, k) :: !x.ReducedMarker?
  {
    if ReducingEndOf(m).None? {
      forall k, x | x in Get(m, k) ensures !x.ReducedMarker? {
        ItemsAt(m, k);
        ValuesAtIff(Items(m), k, x);
      }
    } else {
      var i :| 0 <= i < |Items(m)| && Items(m)[i].1.ReducedMarker?;
      var (k, x) := Items(m)[i];
      ItemsAt(m, k);
      ValuesAtIff(Items(m), k, x);
    }
  }

  /** Setting the reducing end of an unreduced residue and reading it back gives the value set. */
  lemma SetThenGet(m: Modifications, v: nat)
    requires Valid(m) && ReducingEndOf(m).None?
    ensures Valid(SetMarker(m, Some(v)))
    ensures ReducingEndOf(SetMarker(m, Some(v))) == Some(v)
  {
    var m' := Put(m, At(1), ReducedMarker(v));
    assert SetMarker(m, Some(v)) == m';
    PutValid(m, At(1), ReducedMarker(v));
    NoMarkerIff(m);
    forall k, x | x in Get(m', k) && x.ReducedMarker? ensures x == ReducedMarker(v) {
      PutAppends(m, At(1), ReducedMarker(v), k);
    }
    PutAppends(m, At(1), ReducedMarker(v), At(1));
    assert ReducedMarker(v) in Get(m', At(1));
    ItemsAt(m', At(1));
    ValuesAtIff(Items(m'), At(1), ReducedMarker(v));
    var i :| 0 <= i < |Items(m')| && Items(m')[i] == (At(1), ReducedMarker(v));
    assert ReducingEndOf(m').Some?;
    var j :| 0 <= j < |Items(m')| && Items(m')[j].1 == ReducedMarker(ReducingEndOf(m').value);
    var (kj, xj) := Items(m')[j];
    ItemsAt(m', kj);
    ValuesAtIff(Items(m'), kj, xj);
  }

  /** Setting the reducing end and then clearing it gives back the modification items of the unreduced residue. */
  lemma SetThenClear(m: Modifications, v: nat)
    requires Valid(m) && ReducingEndOf(m).None?
    ensures SetMarker(SetMarker(m, Some(v)), None).contents == m.contents
    ensures Items(SetMarker(SetMarker(m, Some(v)), None)) == Items(m)
    ensures ReducingEndOf(SetMarker(SetMarker(m, Some(v)), None)).None?
  {
    SetThenGet(m, v);
    NoMarkerIff(m);
    assert ReducedMarker(v) !in Get(m, At(1));
    PutThenPop(m, At(1), ReducedMarker(v));
  }

  // ---------------------------------------------------------------------------
  // Modifications

  /**
   * `add_modification(modification, position, max_occupancy)`: after the
   * occupancy check, `aldi` replaces the reducing end by a fresh one (`id`
   * stands for its random id); any other modification is recorded at the
   * position and its rule's delta at that position is added to the residue's
   * composition.
   */
  function AddModification(g: Graph, h: nat, mod: EnumValue, p: Position, maxOccupancy: int, id: int): (r: Result<Graph, EditError>)
    requires h in g.residues
    ensures IsOccupied(g, h, p).Err? ==> r == Err(IndexOutOfBounds)
    ensures IsOccupied(g, h, p).Ok? ==> (r.Err? <==> IsOccupied(g, h, p).value > maxOccupancy)
    ensures r.Err? ==> r.error in {IndexOutOfBounds, SiteOccupied}
    ensures r.Ok? ==> h in r.value.residues && r.value.tables == g.tables && r.value.links == g.links
  {
    match IsOccupied(g, h, p)
    case Err(e) => Err(e)
    case Ok(n) =>
      if n > maxOccupancy then Err(SiteOccupied) else Ok(RecordModification(g, h, mod, p, id))
  }

  /**
   * `add_modification` as written: the occupancy check is the written
   * `is_occupied`, so `'x'` raises IndexError; a modification without a
   * composition rule makes the rule lookup raise TypeError, and the bare
   * `except` then reads `modification.composition`, which a member lacks.
   */
  function AddModificationAsWritten(g: Graph, h: nat, mod: EnumValue, p: Position, maxOccupancy: int, id: int): (r: Result<Graph, EditError>)
    requires h in g.residues
  {
    match IsOccupiedAsWritten(g, h, p)
    case Err(e) => Err(e)
    case Ok(n) =>
      if n > maxOccupancy then Err(SiteOccupied)
      else if mod != Aldi && RuleLookupAsWritten(mod.name).None? then Err(NoComposition)
      else Ok(RecordModification(g, h, mod, p, id))
  }

  /**
   * The written and the intended `add_modification` agree on every numbered
   * position for `aldi` and for every modification that has a rule; at `'x'`
   * the written one raises, and a rule-less modification it never records.
   */
  lemma AddModificationAsWrittenAgrees(g: Graph, h: nat, mod: EnumValue, p: Position, maxOccupancy: int, id: int)
    requires h in g.residues
    ensures p.At? && (mod == Aldi || RuleLookupAsWritten(mod.name).Some?) ==>
      AddModificationAsWritten(g, h, mod, p, maxOccupancy, id) == AddModification(g, h, mod, p, maxOccupancy, id)
    ensures p == X ==> AddModificationAsWritten(g, h, mod, p, maxOccupancy, id) == Err(IndexOutOfBounds)
    ensures mod != Aldi && RuleLookupAsWritten(mod.name).None? ==> AddModificationAsWritten(g, h, mod, p, maxOccupancy, id).Err?
    ensures p.At? && mod != Aldi && RuleLookupAsWritten(mod.name).None? && AddModification(g, h, mod, p, maxOccupancy, id).Ok? ==>
      AddModificationAsWritten(g, h, mod, p, maxOccupancy, id) == Err(NoComposition)
  {
    if p.At? {
      IsOccupiedAgreesOnNumbers(g, h, p.n);
    }
  }

  /**
   * As written, adding `en` (which has no composition rule) where the
   * occupancy check passes raises AttributeError; as intended it is recorded
   * at the position and the residue's composition is left as it was.
   */
  lemma RulelessAddAsWritten(g: Graph, h: nat, n: int, maxOccupancy: int, id: int)
    requires h in g.residues && IsOccupied(g, h, At(n)).Ok? && IsOccupied(g, h, At(n)).value <= maxOccupancy
    ensures AddModificationAsWritten(g, h, En, At(n), maxOccupancy, id) == Err(NoComposition)
  {
    IsOccupiedAgreesOnNumbers(g, h, n);
  }

  /** The intended half: a modification without a rule is recorded and changes no composition. */
  lemma RulelessAddRecorded(g: Graph, h: nat, mod: EnumValue, p: Position, maxOccupancy: int, id: int)
    requires h in g.residues && mod != Aldi && RuleLookupAsWritten(mod.name).None?
    requires AddModification(g, h, mod, p, maxOccupancy, id).Ok?
    ensures var r := AddModification(g, h, mod, p, maxOccupancy, id).value;
      h in r.residues && Mods(r, h) == Put(Mods(g, h), p, Mod(mod)) &&
      forall n :: CompositionOf(r, n) == CompositionOf(g, n)
  {
    AddModificationIs(g, h, mod, p, maxOccupancy, id);
    UnknownRuleIsEmpty(mod.name, p);
    RecordedWithoutDelta(g, AddModification(g, h, mod, p, maxOccupancy, id).value, h,
                         Put(Mods(g, h), p, Mod(mod)), Apply(RuleLookup(mod.name), p));
  }

  /** Recording modifications with a delta that contributes nothing changes no node's composition. */
  lemma RecordedWithoutDelta(g: Graph, a: Graph, h: nat, m: Modifications, d: Composition)
    requires h in g.residues && d == EmptyComposition
    requires a == WithComposition(WithMods(g, h, m), ResidueNode(h), Add(CompositionOf(g, ResidueNode(h)), d))
    ensures h in a.residues && Mods(a, h) == m
    ensures forall n :: CompositionOf(a, n) == CompositionOf(g, n)
  {
    var c := CompositionOf(g, ResidueNode(h));
    AddEmpty(c);
    SameComposition(g.compositions, ResidueNode(h), Add(c, d));
  }

  /** Writing back a node's own composition changes no node's composition. */
  lemma SameComposition(cs: map<NodeRef, Composition>, node: NodeRef, c: Composition)
    requires c == CompositionIn(cs, node)
    ensures forall n :: CompositionIn(cs[node := c], n) == CompositionIn(cs, n)
  {
  }

  /** What `add_modification` does once the occupancy check has passed. */
  function RecordModification(g: Graph, h: nat, mod: EnumValue, p: Position, id: int): (r: Graph)
    requires h in g.residues
    ensures h in r.residues && r.tables == g.tables && r.links == g.links
    ensures r.residues[h].superclass == g.residues[h].superclass
  {
    if mod == Aldi then
      var (g1, k) := NewReducedEnd(g, id);
      SetReducingEnd(g1, h, Some(k))
    else
      var node := ResidueNode(h);
      WithComposition(WithMods(g, h, Put(Mods(g, h), p, Mod(mod))), node,
                      Add(CompositionOf(g, node), Apply(RuleLookup(mod.name), p)))
  }

  /**
   * `drop_modification(position, modification)` as written: the upper bound
   * holds for `'x'` under Python 2 ordering, so `'x'` raises IndexError; the
   * pop looks for the modification member itself, which for `aldi` is never
   * stored (the table holds the ReducedEnd object, which compares unequal to
   * it); a modification without a rule fails on `modification.composition`.
   */
  function DropModificationAsWritten(g: Graph, h: nat, p: Position, mod: EnumValue): Result<Graph, EditError>
    requires h in g.residues
  {
    if AboveBackboneAsWritten(p, BackboneSize(g.residues[h])) || BelowBackbone(p, 0) then Err(IndexOutOfBounds)
    else
      match Pop(Mods(g, h), p, Mod(mod))
      case Err(_) => Err(ModificationNotFound)
      case Ok((m', _)) =>
        if mod == Aldi then Ok(SetReducingEnd(WithMods(g, h, m'), h, None))
        else if RuleLookupAsWritten(mod.name).None? then Err(NoComposition)
        else Ok(UnrecordModification(g, h, mod, p, m'))
  }

  /**
   * `drop_modification` as evidently intended: dropping `aldi` un-reduces a
   * reduced residue; any other modification is popped at the position and its
   * rule's delta there is taken back off the composition.
   */
  function DropModification(g: Graph, h: nat, p: Position, mod: EnumValue): (r: Result<Graph, EditError>)
    requires h in g.residues
    ensures r.Err? ==> r.error in {IndexOutOfBounds, ModificationNotFound}
    ensures r.Ok? ==> h in r.value.residues && r.value.tables == g.tables && r.value.links == g.links
    ensures r.Ok? && mod == Aldi ==> r.value == SetReducingEnd(g, h, None)
  {
    if AboveBackbone(p, BackboneSize(g.residues[h])) || BelowBackbone(p, 0) then Err(IndexOutOfBounds)
    else if mod == Aldi then
      if ReducingEndOf(Mods(g, h)).None? then Err(ModificationNotFound)
      else Ok(SetReducingEnd(g, h, None))
    else
      match Pop(Mods(g, h), p, Mod(mod))
      case Err(_) => Err(ModificationNotFound)
      case Ok((m', _)) => Ok(UnrecordModification(g, h, mod, p, m'))
  }

  /** The residue once a modification has been popped from its table: the rule's delta at the position is taken back. */
  function UnrecordModification(g: Graph, h: nat, mod: EnumValue, p: Position, m': Modifications): (r: Graph)
    requires h in g.residues
    ensures h in r.residues && r.tables == g.tables && r.links == g.links && Mods(r, h) == m'
    ensures r.residues[h].superclass == g.residues[h].superclass
  {
    var node := ResidueNode(h);
    WithComposition(WithMods(g, h, m'), node, Sub(CompositionOf(g, node), Apply(RuleLookup(mod.name), p)))
  }

  /**
   * Recording a modification other than keto occupies its position once more
   * and no other; recording keto where there is none leaves every occupancy
   * as it was.
   */
  lemma AddModificationOccupancy(g: Graph, h: nat, mod: EnumValue, p: Position, maxOccupancy: int, id: int, q: Position)
    requires h in g.residues && mod != Aldi && AddModification(g, h, mod, p, maxOccupancy, id).Ok?
    ensures var r := AddModification(g, h, mod, p, maxOccupancy, id).value;
      (!Eq(Keto, mod) ==> Occupants(r, h, q) == Occupants(g, h, q) + (if q == p then 1 else 0)) &&
      (Eq(Keto, mod) && !HasKeto(Get(Mods(g, h), p)) ==> Occupants(r, h, q) == Occupants(g, h, q))
  {
    var r := AddModification(g, h, mod, p, maxOccupancy, id).value;
    var vs := Get(Mods(g, h), q);
    AddModificationIs(g, h, mod, p, maxOccupancy, id);
    RecordedMods(g, r, h, mod, p);
    if q == p {
      HasKetoAppend(vs, Mod(mod));
      OccupantsWithMods(g, r, h, q, vs + [Mod(mod)]);
    } else {
      OccupantsWithMods(g, r, h, q, vs);
    }
  }

  /** The residue's modifications once one has been recorded with its delta. */
  lemma RecordedMods(g: Graph, a: Graph, h: nat, mod: EnumValue, p: Position)
    requires h in g.residues
    requires a == WithComposition(WithMods(g, h, Put(Mods(g, h), p, Mod(mod))), ResidueNode(h),
                                  Add(CompositionOf(g, ResidueNode(h)), Apply(RuleLookup(mod.name), p)))
    ensures h in a.residues && a.tables == g.tables && Mods(a, h) == Put(Mods(g, h), p, Mod(mod))
  {
  }

  /** A keto is among `vs + [x]` when it is among `vs` or is `x`. */
  lemma HasKetoAppend(vs: seq<Modifier>, x: Modifier)
    ensures HasKeto(vs + [x]) == (HasKeto(vs) || (x.Mod? && Eq(Keto, x.m)))
  {
    var ws := vs + [x];
    if HasKeto(ws) {
      var i :| 0 <= i < |ws| && ws[i].Mod? && Eq(Keto, ws[i].m);
      if i < |vs| { assert vs[i] == ws[i]; }
    }
    if HasKeto(vs) {
      var i :| 0 <= i < |vs| && vs[i].Mod? && Eq(Keto, vs[i].m);
      assert ws[i] == vs[i];
    }
    assert ws[|vs|] == x;
  }

  /** Occupancy at `q` when only the modifications there have changed. */
  lemma OccupantsWithMods(g: Graph, r: Graph, h: nat, q: Position, ms: seq<Modifier>)
    requires h in g.residues && h in r.residues && r.tables == g.tables && Get(Mods(r, h), q) == ms
    ensures Occupants(r, h, q) == Occupants(g, h, q) - |Get(Mods(g, h), q)| + |ms|
      + (if HasKeto(Get(Mods(g, h), q)) then 1 else 0) - (if HasKeto(ms) then 1 else 0)
  {
  }

  /** A successful `add_modification` of anything but `aldi` records it at the position and adds its rule's delta there. */
  lemma AddModificationIs(g: Graph, h: nat, mod: EnumValue, p: Position, maxOccupancy: int, id: int)
    requires h in g.residues && mod != Aldi && AddModification(g, h, mod, p, maxOccupancy, id).Ok?
    ensures AddModification(g, h, mod, p, maxOccupancy, id).value ==
      WithComposition(WithMods(g, h, Put(Mods(g, h), p, Mod(mod))), ResidueNode(h),
                      Add(CompositionOf(g, ResidueNode(h)), Apply(RuleLookup(mod.name), p)))
    ensures !AboveBackbone(p, BackboneSize(g.residues[h])) && !BelowBackbone(p, 0)
  {
    OccupiedCheckImpliesDropCheck(g, h, p);
  }

  /** Dropping a modification just recorded, with its delta, gives back the modification items and every composition. */
  lemma RecordedThenDropped(g: Graph, a: Graph, h: nat, mod: EnumValue, p: Position)
    requires h in g.residues && mod != Aldi && Valid(Mods(g, h)) && Mod(mod) !in Get(Mods(g, h), p)
    requires !AboveBackbone(p, BackboneSize(g.residues[h])) && !BelowBackbone(p, 0)
    requires a == WithComposition(WithMods(g, h, Put(Mods(g, h), p, Mod(mod))), ResidueNode(h),
                                  Add(CompositionOf(g, ResidueNode(h)), Apply(RuleLookup(mod.name), p)))
    ensures h in a.residues
    ensures var r := DropModification(a, h, p, mod);
      r.Ok? && Mods(r.value, h).contents == Mods(g, h).contents && Items(Mods(r.value, h)) == Items(Mods(g, h)) &&
      (forall n :: CompositionOf(r.value, n) == CompositionOf(g, n)) &&
      r.value.tables == g.tables && r.value.links == g.links
  {
    var m := Put(Mods(g, h), p, Mod(mod));
    assert Mods(a, h) == m;
    assert a.residues[h].superclass == g.residues[h].superclass;
    PutThenPop(Mods(g, h), p, Mod(mod));
    var m' := Pop(m, p, Mod(mod)).value.0;
    DropModificationIs(a, h, p, mod);
    UnrecordRecorded(g, a, h, mod, p, m');
  }

  /** Dropping a modification other than `aldi` that the pop finds, inside the backbone. */
  lemma DropModificationIs(g: Graph, h: nat, p: Position, mod: EnumValue)
    requires h in g.residues && mod != Aldi && !AboveBackbone(p, BackboneSize(g.residues[h])) && !BelowBackbone(p, 0)
    requires Pop(Mods(g, h), p, Mod(mod)).Ok?
    ensures DropModification(g, h, p, mod) == Ok(UnrecordModification(g, h, mod, p, Pop(Mods(g, h), p, Mod(mod)).value.0))
  {
  }

  /** Taking a rule's delta back off a residue it was just added to gives back every composition. */
  lemma UnrecordRecorded(g: Graph, a: Graph, h: nat, mod: EnumValue, p: Position, m': Modifications)
    requires h in g.residues
    requires a == WithComposition(WithMods(g, h, Put(Mods(g, h), p, Mod(mod))), ResidueNode(h),
                                  Add(CompositionOf(g, ResidueNode(h)), Apply(RuleLookup(mod.name), p)))
    ensures h in a.residues
    ensures forall n :: CompositionOf(UnrecordModification(a, h, mod, p, m'), n) == CompositionOf(g, n)
  {
    var node, d := ResidueNode(h), Apply(RuleLookup(mod.name), p);
    var c := CompositionOf(g, node);
    var cs := g.compositions[node := Add(c, d)];
    assert a.compositions == cs;
    assert CompositionOf(a, node) == Add(c, d);
    assert UnrecordModification(a, h, mod, p, m').compositions == cs[node := Sub(Add(c, d), d)];
    RestoredComposition(g.compositions, node, d);
  }

  /** Adding a delta to one node and taking it off again changes no node's composition. */
  lemma RestoredComposition(cs: map<NodeRef, Composition>, node: NodeRef, d: Composition)
    ensures var up := cs[node := Add(CompositionIn(cs, node), d)];
      forall n :: CompositionIn(up[node := Sub(Add(CompositionIn(cs, node), d), d)], n) == CompositionIn(cs, n)
  {
    AddSubCancel(CompositionIn(cs, node), d);
  }

  /**
   * Adding a modification other than `aldi` and dropping it again at the
   * same position gives back the modification items and every composition.
   */
  lemma AddThenDropModification(g: Graph, h: nat, mod: EnumValue, p: Position, maxOccupancy: int, id: int)
    requires h in g.residues && mod != Aldi && AddModification(g, h, mod, p, maxOccupancy, id).Ok?
    requires Valid(Mods(g, h)) && Mod(mod) !in Get(Mods(g, h), p)
    ensures var r := DropModification(AddModification(g, h, mod, p, maxOccupancy, id).value, h, p, mod);
      r.Ok? && Mods(r.value, h).contents == Mods(g, h).contents && Items(Mods(r.value, h)) == Items(Mods(g, h)) &&
      (forall n :: CompositionOf(r.value, n) == CompositionOf(g, n)) &&
      r.value.tables == g.tables && r.value.links == g.links
  {
    AddModificationIs(g, h, mod, p, maxOccupancy, id);
    RecordedThenDropped(g, AddModification(g, h, mod, p, maxOccupancy, id).value, h, mod, p);
  }

  /**
   * As written, dropping any modification at `'x'` raises IndexError, and so
   * does adding one there; on numbered positions the written drop agrees with
   * the intended one for `aldi` aside and every modification with a rule.
   */
  lemma DropModificationUnknownAsWritten(g: Graph, h: nat, mod: EnumValue, maxOccupancy: int, id: int, n: int)
    requires h in g.residues
    ensures DropModificationAsWritten(g, h, X, mod) == Err(IndexOutOfBounds)
    ensures AddModificationAsWritten(g, h, mod, X, maxOccupancy, id) == Err(IndexOutOfBounds)
    ensures mod != Aldi && RuleLookupAsWritten(mod.name).Some? ==>
      DropModificationAsWritten(g, h, At(n), mod) == DropModification(g, h, At(n), mod)
  {
  }

  /**
   * As intended, `'x'` is a position like any other for modifications: a
   * modification added there can be dropped there again, which gives back
   * the modification items and every composition.
   */
  lemma UnknownModificationRoundTrip(g: Graph, h: nat, mod: EnumValue, maxOccupancy: nat, id: int)
    requires h in g.residues && mod != Aldi
    requires Valid(Mods(g, h)) && Mod(mod) !in Get(Mods(g, h), X)
    ensures AddModification(g, h, mod, X, maxOccupancy, id).Ok?
    ensures var r := DropModification(AddModification(g, h, mod, X, maxOccupancy, id).value, h, X, mod);
      r.Ok? && Items(Mods(r.value, h)) == Items(Mods(g, h)) &&
      (forall n :: CompositionOf(r.value, n) == CompositionOf(g, n))
  {
    assert IsOccupied(g, h, X) == Ok(0);
    AddThenDropModification(g, h, mod, X, maxOccupancy, id);
  }

  /**
   * As written, adding `aldi` to an unreduced residue and dropping it again
   * fails: the pop looks for the `aldi` member among entries that hold only
   * the ReducedEnd object.
   */
  lemma AldiDropFailsAsWritten(g: Graph, h: nat, p: Position, maxOccupancy: int, id: int)
    requires h in g.residues && AddModification(g, h, Aldi, p, maxOccupancy, id).Ok?
    requires Valid(Mods(g, h)) && ReducingEndOf(Mods(g, h)).None? && Mod(Aldi) !in Get(Mods(g, h), At(1))
    ensures DropModificationAsWritten(AddModification(g, h, Aldi, p, maxOccupancy, id).value, h, At(1), Aldi).Err?
  {
    var a := AddModification(g, h, Aldi, p, maxOccupancy, id).value;
    var k := g.next;
    assert Mods(a, h) == SetMarker(Mods(g, h), Some(k));
    assert Mods(a, h) == Put(Mods(g, h), At(1), ReducedMarker(k));
    assert Get(Mods(a, h), At(1)) == Get(Mods(g, h), At(1)) + [ReducedMarker(k)];
  }

  /**
   * With the intended drop, adding `aldi` to an unreduced residue and dropping
   * it again gives back its modification items, leaves it unreduced, and leaves
   * its composition untouched throughout.
   */
  lemma AldiAddThenDrop(g: Graph, h: nat, p: Position, maxOccupancy: int, id: int)
    requires h in g.residues && AddModification(g, h, Aldi, p, maxOccupancy, id).Ok?
    requires Valid(Mods(g, h)) && ReducingEndOf(Mods(g, h)).None?
    requires var s := BackboneSize(g.residues[h]); s.Some? && s.value >= 1
    ensures var r := DropModification(AddModification(g, h, Aldi, p, maxOccupancy, id).value, h, At(1), Aldi);
      r.Ok? && Mods(r.value, h).contents == Mods(g, h).contents && Items(Mods(r.value, h)) == Items(Mods(g, h)) &&
      ReducingEndOf(Mods(r.value, h)).None? &&
      CompositionOf(r.value, ResidueNode(h)) == CompositionOf(g, ResidueNode(h))
  {
    var a := AddModification(g, h, Aldi, p, maxOccupancy, id).value;
    var k := g.next;
    assert Mods(a, h) == SetMarker(Mods(g, h), Some(k));
    SetThenGet(Mods(g, h), k);
    SetThenClear(Mods(g, h), k);
    assert a.residues[h].superclass == g.residues[h].superclass;
  }

  // ---------------------------------------------------------------------------
  // Substituents and glycosidic links

  /** An omitted loss takes the operation's default. */
  function LossOr(c: Option<Composition>, default: Composition): Composition {
    if c.Some? then c.value else default
  }

  /**
   * `Substituent(name)`: a fresh substituent under the next handle, with the
   * substituent table's composition for its name; `id` stands for its random id.
   */
  function NewSubstituent(g: Graph, name: string, id: int): (r: Graph)
    ensures r.substituents == g.substituents[g.next := Substituent(id, name)]
    ensures r.compositions == g.compositions[SubstituentNode(g.next) := SubstituentComposition(name)]
    ensures r.residues == g.residues && r.reducedEnds == g.reducedEnds && r.tables == g.tables && r.links == g.links
    ensures r.next == g.next + 1
  {
    g.(substituents := g.substituents[g.next := Substituent(id, name)],
       compositions := g.compositions[SubstituentNode(g.next) := SubstituentComposition(name)],
       next := g.next + 1)
  }

  /** The link `Link(parent, child, ...)` makes, before it is applied. */
  function Fresh(parent: NodeRef, child: NodeRef, pp: Position, cp: Position,
                 parentLoss: Composition, childLoss: Composition, id: int): Link
  {
    Link(id, parent, child, pp, cp, parentLoss, childLoss, false, None)
  }

  /** The graph with a detached link stored under the next handle. */
  function Stored(g: Graph, l: Link): (r: Graph)
    ensures r.links == g.links[g.next := l] && r.next == g.next + 1
    ensures r.residues == g.residues && r.substituents == g.substituents && r.reducedEnds == g.reducedEnds
    ensures r.tables == g.tables && r.compositions == g.compositions
  {
    g.(links := g.links[g.next := l], next := g.next + 1)
  }

  /** `Link(parent, child, ...)`: a fresh link under the next handle, applied as it is made. */
  function NewLink(g: Graph, l: Link): Graph {
    ApplyLink(Stored(g, l), g.next)
  }

  /** A table that holds only handles below `next` holds no handle from `next` on. */
  lemma FreshNotFiled(m: Slots, next: nat, k: nat, p: Position)
    requires TableOk(m, next) && next <= k
    ensures k !in Get(m, p)
  {
  }

  /**
   * A new link between distinct nodes, filed in tables that hold only older
   * handles, is settled: in place, and last and once at both of its positions.
   */
  lemma NewLinkSettled(g: Graph, l: Link)
    requires !l.attached && l.parent != l.child
    requires TableOk(Table(g, ParentTable(l)), g.next) && TableOk(Table(g, ChildTable(l)), g.next)
    requires l.parent in g.compositions && l.child in g.compositions
    ensures Settled(NewLink(g, l), g.next)
  {
    var g1 := Stored(g, l);
    var k := g.next;
    var r := ApplyLink(g1, k);
    ApplyLinkTable(g1, k, ParentTable(l));
    ApplyLinkTable(g1, k, ChildTable(l));
    ApplyLinkComposition(g1, k, l.parent);
    FreshNotFiled(Table(g, ParentTable(l)), g.next, g.next, l.parentPosition);
    FreshNotFiled(Table(g, ChildTable(l)), g.next, g.next, l.childPosition);
    PutValid(Table(g, ParentTable(l)), l.parentPosition, k);
    PutValid(Table(g, ChildTable(l)), l.childPosition, k);
  }

  /**
   * The link `add_substituent` makes from its parent to the substituent under
   * handle `s`, the handle before the link's own; default losses are one H on
   * each side.
   */
  function SubstituentLink(parent: NodeRef, s: nat, p: Position, cp: Position,
                           parentLoss: Option<Composition>, childLoss: Option<Composition>, linkId: int): Link
  {
    Fresh(parent, SubstituentNode(s), p, cp, LossOr(parentLoss, Hydrogen), LossOr(childLoss, Hydrogen), linkId)
  }

  /**
   * `add_substituent(substituent, position, max_occupancy, child_position,
   * parent_loss, child_loss)`: after the occupancy check, a new substituent is
   * made and linked below the residue at the position.
   */
  function AddSubstituent(g: Graph, h: nat, name: string, p: Position, maxOccupancy: int, cp: Position,
                          parentLoss: Option<Composition>, childLoss: Option<Composition>, subId: int, linkId: int): (r: Result<Graph, EditError>)
    requires h in g.residues
    ensures IsOccupied(g, h, p).Err? ==> r == Err(IndexOutOfBounds)
    ensures IsOccupied(g, h, p).Ok? ==> (r.Err? <==> IsOccupied(g, h, p).value > maxOccupancy)
    ensures r.Err? ==> r.error in {IndexOutOfBounds, SiteOccupied}
  {
    match IsOccupied(g, h, p)
    case Err(e) => Err(e)
    case Ok(n) =>
      if n > maxOccupancy then Err(SiteOccupied)
      else Ok(NewLink(NewSubstituent(g, name, subId), SubstituentLink(ResidueNode(h), g.next, p, cp, parentLoss, childLoss, linkId)))
  }

  /** A successful `add_substituent` makes the substituent and then the link to it. */
  lemma AddSubstituentIs(g: Graph, h: nat, name: string, p: Position, maxOccupancy: int, cp: Position,
                         parentLoss: Option<Composition>, childLoss: Option<Composition>, subId: int, linkId: int)
    requires h in g.residues && AddSubstituent(g, h, name, p, maxOccupancy, cp, parentLoss, childLoss, subId, linkId).Ok?
    ensures AddSubstituent(g, h, name, p, maxOccupancy, cp, parentLoss, childLoss, subId, linkId).value ==
      NewLink(NewSubstituent(g, name, subId), SubstituentLink(ResidueNode(h), g.next, p, cp, parentLoss, childLoss, linkId))
  {
  }

  /** The stored links once a new substituent is linked: one more, under the handle after the substituent's. */
  lemma NewSubstituentLinks(g: Graph, name: string, subId: int, l: Link)
    ensures NewLink(NewSubstituent(g, name, subId), l).links == g.links[g.next + 1 := l.(attached := true)]
    ensures var r := NewLink(NewSubstituent(g, name, subId), l); r.residues == g.residues && r.reducedEnds == g.reducedEnds
  {
    var g1 := NewSubstituent(g, name, subId);
    var g2 := Stored(g1, l);
    assert g2.links[g1.next] == l;
    assert ApplyLink(g2, g1.next).links == g2.links[g1.next := l.(attached := true)];
  }

  /** The tables once a new substituent is linked: its link is filed at both of its ends and nowhere else. */
  lemma NewSubstituentTable(g: Graph, name: string, subId: int, l: Link, t: TableId)
    requires l.child == SubstituentNode(g.next) && l.parent != l.child && !l.attached
    ensures Table(NewLink(NewSubstituent(g, name, subId), l), t) ==
      if t == ParentTable(l) then Put(Table(g, t), l.parentPosition, g.next + 1)
      else if t == ChildTable(l) then Put(Table(g, t), l.childPosition, g.next + 1)
      else Table(g, t)
  {
    var g1 := NewSubstituent(g, name, subId);
    ApplyLinkTable(Stored(g1, l), g1.next, t);
  }

  /** A new substituent occupies its position once more, and no other position of the residue. */
  lemma AddSubstituentOccupancy(g: Graph, h: nat, name: string, p: Position, maxOccupancy: int, cp: Position,
                                parentLoss: Option<Composition>, childLoss: Option<Composition>, subId: int, linkId: int, q: Position)
    requires h in g.residues && AddSubstituent(g, h, name, p, maxOccupancy, cp, parentLoss, childLoss, subId, linkId).Ok?
    ensures Occupants(AddSubstituent(g, h, name, p, maxOccupancy, cp, parentLoss, childLoss, subId, linkId).value, h, q) ==
            Occupants(g, h, q) + (if q == p then 1 else 0)
  {
    var l := SubstituentLink(ResidueNode(h), g.next, p, cp, parentLoss, childLoss, linkId);
    var r := AddSubstituent(g, h, name, p, maxOccupancy, cp, parentLoss, childLoss, subId, linkId).value;
    AddSubstituentIs(g, h, name, p, maxOccupancy, cp, parentLoss, childLoss, subId, linkId);
    NewSubstituentTable(g, name, subId, l, SubstituentLinksOf(h));
    NewSubstituentTable(g, name, subId, l, LinksOf(ResidueNode(h)));
    GetPut(Table(g, SubstituentLinksOf(h)), p, g.next + 1, q);
    OccupantsChange(g, r, h, q, 0, if q == p then 1 else 0);
  }

  /**
   * Linking a substituent takes the parent loss off the residue's composition,
   * and the new substituent starts from its table composition less the child
   * loss; no other composition changes.
   */
  lemma AddSubstituentComposition(g: Graph, h: nat, name: string, p: Position, maxOccupancy: int, cp: Position,
                                  parentLoss: Option<Composition>, childLoss: Option<Composition>, subId: int, linkId: int, n: NodeRef)
    requires h in g.residues && AddSubstituent(g, h, name, p, maxOccupancy, cp, parentLoss, childLoss, subId, linkId).Ok?
    ensures var r := AddSubstituent(g, h, name, p, maxOccupancy, cp, parentLoss, childLoss, subId, linkId).value;
      CompositionOf(r, n) ==
        if n == ResidueNode(h) then Sub(CompositionOf(g, n), LossOr(parentLoss, Hydrogen))
        else if n == SubstituentNode(g.next) then Sub(SubstituentComposition(name), LossOr(childLoss, Hydrogen))
        else CompositionOf(g, n)
  {
    var g1 := NewSubstituent(g, name, subId);
    var g2 := Stored(g1, SubstituentLink(ResidueNode(h), g.next, p, cp, parentLoss, childLoss, linkId));
    ApplyLinkComposition(g2, g1.next, n);
  }

  /** A link `k` whose child is a substituent named `name` (any substituent when `name` is None). */
  predicate NamedSubstituentLink(g: Graph, k: nat, name: Option<string>) {
    k in g.links && g.links[k].child.SubstituentNode? && g.links[k].child.h in g.substituents &&
    (name.None? || g.substituents[g.links[k].child.h].name == name.value)
  }

  /** The first link from `from` on whose substituent matches (the search loop of `drop_substituent`). */
  function FindSubstituentLink(g: Graph, ks: seq<nat>, name: Option<string>, from: nat): (r: Option<nat>)
    requires from <= |ks|
    ensures r.Some? ==> from <= r.value < |ks| && NamedSubstituentLink(g, ks[r.value], name) &&
                        forall i | from <= i < r.value :: !NamedSubstituentLink(g, ks[i], name)
    ensures r.None? ==> forall i | from <= i < |ks| :: !NamedSubstituentLink(g, ks[i], name)
    decreases |ks| - from
  {
    if from == |ks| then None
    else if NamedSubstituentLink(g, ks[from], name) then Some(from)
    else FindSubstituentLink(g, ks, name, from + 1)
  }

  /**
   * `drop_substituent(position, substituent, refund)`: after the bound
   * check, breaks the first substituent link at the position whose
   * substituent has the name given (the first one at all when none is given).
   */
  function DropSubstituent(g: Graph, h: nat, p: Position, name: Option<string>, refund: bool): (r: Result<Graph, EditError>)
    requires h in g.residues
    ensures var ks := Get(Table(g, SubstituentLinksOf(h)), p);
      (r.Err? <==> AboveBackbone(p, BackboneSize(g.residues[h])) || BelowBackbone(p, 0) ||
                   FindSubstituentLink(g, ks, name, 0).None?) &&
      (r.Ok? ==> r.value == BreakLink(g, ks[FindSubstituentLink(g, ks, name, 0).value], refund))
    ensures r.Err? ==> r.error in {IndexOutOfBounds, SubstituentNotFound}
  {
    if AboveBackbone(p, BackboneSize(g.residues[h])) || BelowBackbone(p, 0) then Err(IndexOutOfBounds)
    else
      var ks := Get(Table(g, SubstituentLinksOf(h)), p);
      match FindSubstituentLink(g, ks, name, 0)
      case None => Err(SubstituentNotFound)
      case Some(i) => Ok(BreakLink(g, ks[i], refund))
  }

  /** `drop_substituent` as written: the upper bound holds for `'x'` under Python 2 ordering. */
  function DropSubstituentAsWritten(g: Graph, h: nat, p: Position, name: Option<string>, refund: bool): Result<Graph, EditError>
    requires h in g.residues
  {
    if AboveBackboneAsWritten(p, BackboneSize(g.residues[h])) then Err(IndexOutOfBounds)
    else DropSubstituent(g, h, p, name, refund)
  }

  /** As written, dropping a substituent at `'x'` raises IndexError on every residue; on numbered positions both agree. */
  lemma DropSubstituentUnknownAsWritten(g: Graph, h: nat, name: Option<string>, refund: bool, n: int)
    requires h in g.residues
    ensures DropSubstituentAsWritten(g, h, X, name, refund) == Err(IndexOutOfBounds)
    ensures DropSubstituentAsWritten(g, h, At(n), name, refund) == DropSubstituent(g, h, At(n), name, refund)
  {
  }

  /** As intended, a substituent at `'x'` with the name asked for is dropped there. */
  lemma DropSubstituentAtUnknown(g: Graph, h: nat, name: string, k: nat, refund: bool)
    requires h in g.residues
    requires Get(Table(g, SubstituentLinksOf(h)), X) == [k] && NamedSubstituentLink(g, k, Some(name))
    ensures DropSubstituent(g, h, X, Some(name), refund) == Ok(BreakLink(g, k, refund))
    ensures DropSubstituentAsWritten(g, h, X, Some(name), refund) == Err(IndexOutOfBounds)
  {
    DropSoleSubstituent(g, h, X, name, k, refund);
  }

  /** A position holding one matching substituent link drops exactly that link. */
  lemma DropSoleSubstituent(g: Graph, h: nat, p: Position, name: string, k: nat, refund: bool)
    requires h in g.residues && !AboveBackbone(p, BackboneSize(g.residues[h])) && !BelowBackbone(p, 0)
    requires Get(Table(g, SubstituentLinksOf(h)), p) == [k] && NamedSubstituentLink(g, k, Some(name))
    ensures DropSubstituent(g, h, p, Some(name), refund) == Ok(BreakLink(g, k, refund))
  {
    assert FindSubstituentLink(g, [k], Some(name), 0) == Some(0);
  }

  /** Attaching a new substituent and breaking its link with refund gives back the table `t`. */
  lemma AttachThenBreakSubstituentTable(g: Graph, parent: NodeRef, name: string, p: Position, cp: Position,
                                        parentLoss: Option<Composition>, childLoss: Option<Composition>, subId: int, linkId: int, t: TableId)
    requires parent != SubstituentNode(g.next)
    requires TableOk(Table(g, FilingTable(parent, SubstituentNode(g.next))), g.next)
    requires TableOk(Table(g, LinksOf(SubstituentNode(g.next))), g.next)
    ensures var g1 := NewSubstituent(g, name, subId);
      var g2 := Stored(g1, SubstituentLink(parent, g.next, p, cp, parentLoss, childLoss, linkId));
      var r := BreakLink(ApplyLink(g2, g1.next), g1.next, true);
      Table(r, t).contents == Table(g, t).contents && Items(Table(r, t)) == Items(Table(g, t))
  {
    var g1 := NewSubstituent(g, name, subId);
    var l := SubstituentLink(parent, g.next, p, cp, parentLoss, childLoss, linkId);
    FreshNotFiled(Table(g, ParentTable(l)), g.next, g1.next, p);
    FreshNotFiled(Table(g, ChildTable(l)), g.next, g1.next, cp);
    ApplyThenBreakTable(Stored(g1, l), g1.next, t);
  }

  /**
   * Attaching a new substituent and breaking its link with refund gives back
   * every composition but the new substituent's own, which is back at its
   * table value.
   */
  lemma AttachThenBreakSubstituentComposition(g: Graph, parent: NodeRef, name: string, p: Position, cp: Position,
                                              parentLoss: Option<Composition>, childLoss: Option<Composition>, subId: int, linkId: int, n: NodeRef)
    requires parent != SubstituentNode(g.next)
    ensures var g1 := NewSubstituent(g, name, subId);
      var g2 := Stored(g1, SubstituentLink(parent, g.next, p, cp, parentLoss, childLoss, linkId));
      var r := BreakLink(ApplyLink(g2, g1.next), g1.next, true);
      CompositionOf(r, n) == if n == SubstituentNode(g.next) then SubstituentComposition(name) else CompositionOf(g, n)
  {
    var g1 := NewSubstituent(g, name, subId);
    ApplyThenBreakComposition(Stored(g1, SubstituentLink(parent, g.next, p, cp, parentLoss, childLoss, linkId)), g1.next, n);
  }

  /**
   * Adding a substituent at a position holding no substituent and dropping it
   * again by name with refund gives back every table's items, every
   * composition other than the new substituent's (which is back at its table
   * value) and the residues.
   */
  lemma AddThenDropSubstituent(g: Graph, h: nat, name: string, p: Position, maxOccupancy: int, cp: Position,
                               parentLoss: Option<Composition>, childLoss: Option<Composition>, subId: int, linkId: int)
    requires h in g.residues && AddSubstituent(g, h, name, p, maxOccupancy, cp, parentLoss, childLoss, subId, linkId).Ok?
    requires TableOk(Table(g, SubstituentLinksOf(h)), g.next) && Get(Table(g, SubstituentLinksOf(h)), p) == []
    requires TableOk(Table(g, LinksOf(SubstituentNode(g.next))), g.next)
    ensures var a := AddSubstituent(g, h, name, p, maxOccupancy, cp, parentLoss, childLoss, subId, linkId).value;
      h in a.residues &&
      var r := DropSubstituent(a, h, p, Some(name), true);
      r.Ok? && r.value.residues == g.residues &&
      (forall t :: Table(r.value, t).contents == Table(g, t).contents && Items(Table(r.value, t)) == Items(Table(g, t))) &&
      (forall n | n != SubstituentNode(g.next) :: CompositionOf(r.value, n) == CompositionOf(g, n)) &&
      CompositionOf(r.value, SubstituentNode(g.next)) == SubstituentComposition(name)
  {
    var g1 := NewSubstituent(g, name, subId);
    var l := SubstituentLink(ResidueNode(h), g.next, p, cp, parentLoss, childLoss, linkId);
    var g2 := Stored(g1, l);
    var k := g1.next;
    ApplyLinkTable(g2, k, SubstituentLinksOf(h));
    GetPut(Table(g, SubstituentLinksOf(h)), p, k, p);
    OccupiedCheckImpliesDropCheck(g, h, p);
    DropSoleSubstituent(ApplyLink(g2, k), h, p, name, k, true);
    var r := BreakLink(ApplyLink(g2, k), k, true);
    forall t ensures Table(r, t).contents == Table(g, t).contents && Items(Table(r, t)) == Items(Table(g, t)) {
      AttachThenBreakSubstituentTable(g, ResidueNode(h), name, p, cp, parentLoss, childLoss, subId, linkId, t);
    }
    forall n ensures CompositionOf(r, n) == if n == SubstituentNode(g.next) then SubstituentComposition(name) else CompositionOf(g, n) {
      AttachThenBreakSubstituentComposition(g, ResidueNode(h), name, p, cp, parentLoss, childLoss, subId, linkId, n);
    }
  }

  /** The link `add_monosaccharide` makes; default losses are H from the parent and H + O from the child. */
  function GlycosidicLink(h: nat, c: nat, p: Position, cp: Position,
                          parentLoss: Option<Composition>, childLoss: Option<Composition>, linkId: int): Link
  {
    Fresh(ResidueNode(h), ResidueNode(c), p, cp, LossOr(parentLoss, Hydrogen), LossOr(childLoss, Hydroxyl), linkId)
  }

  /**
   * `add_monosaccharide(monosaccharide, position, max_occupancy,
   * child_position, parent_loss, child_loss)`: the parent's position is
   * checked first, then the child's, and only then is the link made.
   */
  function AddMonosaccharide(g: Graph, h: nat, c: nat, p: Position, maxOccupancy: int, cp: Position,
                             parentLoss: Option<Composition>, childLoss: Option<Composition>, linkId: int): (r: Result<Graph, EditError>)
    requires h in g.residues && c in g.residues
    ensures IsOccupied(g, h, p).Err? ==> r == Err(IndexOutOfBounds)
    ensures IsOccupied(g, h, p).Ok? && IsOccupied(g, h, p).value > maxOccupancy ==> r == Err(SiteOccupied)
    ensures r.Ok? <==> IsOccupied(g, h, p).Ok? && IsOccupied(g, h, p).value <= maxOccupancy &&
                       IsOccupied(g, c, cp).Ok? && IsOccupied(g, c, cp).value <= maxOccupancy
    ensures r.Err? ==> r.error in {IndexOutOfBounds, SiteOccupied, ChildSiteOccupied}
  {
    match IsOccupied(g, h, p)
    case Err(e) => Err(e)
    case Ok(n) =>
      if n > maxOccupancy then Err(SiteOccupied)
      else
        match IsOccupied(g, c, cp)
        case Err(e) => Err(e)
        case Ok(m) =>
          if m > maxOccupancy then Err(ChildSiteOccupied)
          else Ok(NewLink(g, GlycosidicLink(h, c, p, cp, parentLoss, childLoss, linkId)))
  }

  /** A glycosidic link occupies the parent's position and the child's position once more each, and nothing else. */
  lemma AddMonosaccharideOccupancy(g: Graph, h: nat, c: nat, p: Position, maxOccupancy: int, cp: Position,
                                   parentLoss: Option<Composition>, childLoss: Option<Composition>, linkId: int, q: Position)
    requires h in g.residues && c in g.residues && h != c
    requires AddMonosaccharide(g, h, c, p, maxOccupancy, cp, parentLoss, childLoss, linkId).Ok?
    ensures var r := AddMonosaccharide(g, h, c, p, maxOccupancy, cp, parentLoss, childLoss, linkId).value;
      Occupants(r, h, q) == Occupants(g, h, q) + (if q == p then 1 else 0) &&
      Occupants(r, c, q) == Occupants(g, c, q) + (if q == cp then 1 else 0)
  {
    var g1 := Stored(g, GlycosidicLink(h, c, p, cp, parentLoss, childLoss, linkId));
    var r := ApplyLink(g1, g.next);
    ApplyLinkTable(g1, g.next, LinksOf(ResidueNode(h)));
    ApplyLinkTable(g1, g.next, LinksOf(ResidueNode(c)));
    ApplyLinkTable(g1, g.next, SubstituentLinksOf(h));
    ApplyLinkTable(g1, g.next, SubstituentLinksOf(c));
    GetPut(Table(g, LinksOf(ResidueNode(h))), p, g.next, q);
    GetPut(Table(g, LinksOf(ResidueNode(c))), cp, g.next, q);
    OccupantsChange(g, r, h, q, if q == p then 1 else 0, 0);
    OccupantsChange(g, r, c, q, if q == cp then 1 else 0, 0);
  }

  /** A glycosidic link takes the parent loss off the parent and the child loss off the child, and nothing else. */
  lemma AddMonosaccharideComposition(g: Graph, h: nat, c: nat, p: Position, maxOccupancy: int, cp: Position,
                                     parentLoss: Option<Composition>, childLoss: Option<Composition>, linkId: int, n: NodeRef)
    requires h in g.residues && c in g.residues && h != c
    requires AddMonosaccharide(g, h, c, p, maxOccupancy, cp, parentLoss, childLoss, linkId).Ok?
    ensures var r := AddMonosaccharide(g, h, c, p, maxOccupancy, cp, parentLoss, childLoss, linkId).value;
      CompositionOf(r, n) ==
        if n == ResidueNode(h) then Sub(CompositionOf(g, n), LossOr(parentLoss, Hydrogen))
        else if n == ResidueNode(c) then Sub(CompositionOf(g, n), LossOr(childLoss, Hydroxyl))
        else CompositionOf(g, n)
  {
    var g1 := Stored(g, GlycosidicLink(h, c, p, cp, parentLoss, childLoss, linkId));
    ApplyLinkComposition(g1, g.next, n);
  }

  /**
   * `drop_monosaccharide(position, refund)`: after the bound check, the
   * position must hold exactly one link, which is broken (whichever end of it
   * the residue is).
   */
  function DropMonosaccharide(g: Graph, h: nat, p: Position, refund: bool): (r: Result<Graph, EditError>)
    requires h in g.residues
    requires forall k | k in Get(Table(g, LinksOf(ResidueNode(h))), p) :: k in g.links
    ensures var ks := Get(Table(g, LinksOf(ResidueNode(h))), p);
      (r.Ok? <==> !AboveBackbone(p, BackboneSize(g.residues[h])) && !BelowBackbone(p, 0) && |ks| == 1) &&
      (r.Ok? ==> r.value == BreakLink(g, ks[0], refund))
    ensures r.Err? ==> r.error in {IndexOutOfBounds, TooManyLinks, LinkNotFound}
  {
    if AboveBackbone(p, BackboneSize(g.residues[h])) || BelowBackbone(p, 0) then Err(IndexOutOfBounds)
    else
      var ks := Get(Table(g, LinksOf(ResidueNode(h))), p);
      if |ks| > 1 then Err(TooManyLinks)
      else if |ks| == 0 then Err(LinkNotFound)
      else Ok(BreakLink(g, ks[0], refund))
  }

  /** `drop_monosaccharide` as written: the upper bound holds for `'x'` under Python 2 ordering. */
  function DropMonosaccharideAsWritten(g: Graph, h: nat, p: Position, refund: bool): Result<Graph, EditError>
    requires h in g.residues
    requires forall k | k in Get(Table(g, LinksOf(ResidueNode(h))), p) :: k in g.links
  {
    if AboveBackboneAsWritten(p, BackboneSize(g.residues[h])) then Err(IndexOutOfBounds)
    else DropMonosaccharide(g, h, p, refund)
  }

  /** As written, dropping a link at `'x'` raises IndexError on every residue; on numbered positions both agree. */
  lemma DropMonosaccharideUnknownAsWritten(g: Graph, h: nat, refund: bool, n: int)
    requires h in g.residues
    requires forall k | k in Get(Table(g, LinksOf(ResidueNode(h))), X) :: k in g.links
    requires forall k | k in Get(Table(g, LinksOf(ResidueNode(h))), At(n)) :: k in g.links
    ensures DropMonosaccharideAsWritten(g, h, X, refund) == Err(IndexOutOfBounds)
    ensures DropMonosaccharideAsWritten(g, h, At(n), refund) == DropMonosaccharide(g, h, At(n), refund)
  {
  }

  /** As intended, the one link filed at `'x'` is broken there. */
  lemma DropMonosaccharideAtUnknown(g: Graph, h: nat, k: nat, refund: bool)
    requires h in g.residues && k in g.links
    requires Get(Table(g, LinksOf(ResidueNode(h))), X) == [k]
    ensures DropMonosaccharide(g, h, X, refund) == Ok(BreakLink(g, k, refund))
    ensures DropMonosaccharideAsWritten(g, h, X, refund) == Err(IndexOutOfBounds)
  {
  }

  /**
   * A new link between two residues, filed at a position of the parent that
   * held no link, is what `drop_monosaccharide` there finds; dropping it with
   * refund gives back every table's items and every composition.
   */
  lemma NewLinkThenDrop(g: Graph, l: Link, h: nat, p: Position)
    requires h in g.residues && l.parent == ResidueNode(h) && l.child.ResidueNode? && l.child != l.parent && !l.attached
    requires l.parentPosition == p && !AboveBackbone(p, BackboneSize(g.residues[h])) && !BelowBackbone(p, 0)
    requires TableOk(Table(g, LinksOf(ResidueNode(h))), g.next) && Get(Table(g, LinksOf(ResidueNode(h))), p) == []
    requires TableOk(Table(g, LinksOf(l.child)), g.next)
    ensures var a := NewLink(g, l);
      h in a.residues &&
      (forall k | k in Get(Table(a, LinksOf(ResidueNode(h))), p) :: k in a.links) &&
      var r := DropMonosaccharide(a, h, p, true);
      r.Ok? && r.value.residues == g.residues &&
      (forall t :: Table(r.value, t).contents == Table(g, t).contents && Items(Table(r.value, t)) == Items(Table(g, t))) &&
      (forall n :: CompositionOf(r.value, n) == CompositionOf(g, n))
  {
    var g1 := Stored(g, l);
    var k := g.next;
    var a := ApplyLink(g1, k);
    ApplyLinkTable(g1, k, LinksOf(ResidueNode(h)));
    assert Get(Table(a, LinksOf(ResidueNode(h))), p) == [k];
    FreshNotFiled(Table(g, LinksOf(l.child)), g.next, g.next, l.childPosition);
    ApplyThenBreak(g1, k);
  }

  /** A successful `add_monosaccharide` makes the glycosidic link. */
  lemma AddMonosaccharideIs(g: Graph, h: nat, c: nat, p: Position, maxOccupancy: int, cp: Position,
                            parentLoss: Option<Composition>, childLoss: Option<Composition>, linkId: int)
    requires h in g.residues && c in g.residues
    requires AddMonosaccharide(g, h, c, p, maxOccupancy, cp, parentLoss, childLoss, linkId).Ok?
    ensures AddMonosaccharide(g, h, c, p, maxOccupancy, cp, parentLoss, childLoss, linkId).value ==
      NewLink(g, GlycosidicLink(h, c, p, cp, parentLoss, childLoss, linkId))
  {
  }

  /**
   * Linking a child at a position holding no link and dropping the link again
   * with refund gives back every table's items and every composition.
   */
  lemma AddThenDropMonosaccharide(g: Graph, h: nat, c: nat, p: Position, maxOccupancy: int, cp: Position,
                                  parentLoss: Option<Composition>, childLoss: Option<Composition>, linkId: int)
    requires h in g.residues && c in g.residues && h != c
    requires AddMonosaccharide(g, h, c, p, maxOccupancy, cp, parentLoss, childLoss, linkId).Ok?
    requires TableOk(Table(g, LinksOf(ResidueNode(h))), g.next) && Get(Table(g, LinksOf(ResidueNode(h))), p) == []
    requires TableOk(Table(g, LinksOf(ResidueNode(c))), g.next)
    ensures var a := AddMonosaccharide(g, h, c, p, maxOccupancy, cp, parentLoss, childLoss, linkId).value;
      h in a.residues &&
      (forall k | k in Get(Table(a, LinksOf(ResidueNode(h))), p) :: k in a.links) &&
      var r := DropMonosaccharide(a, h, p, true);
      r.Ok? && r.value.residues == g.residues &&
      (forall t :: Table(r.value, t).contents == Table(g, t).contents && Items(Table(r.value, t)) == Items(Table(g, t))) &&
      (forall n :: CompositionOf(r.value, n) == CompositionOf(g, n))
  {
    OccupiedCheckImpliesDropCheck(g, h, p);
    AddMonosaccharideIs(g, h, c, p, maxOccupancy, cp, parentLoss, childLoss, linkId);
    NewLinkThenDrop(g, GlycosidicLink(h, c, p, cp, parentLoss, childLoss, linkId), h, p);
  }

  /** Dropping a settled glycosidic link with refund and applying it again gives back exactly the graph it started from. */
  lemma DropMonosaccharideRefund(g: Graph, h: nat, p: Position)
    requires h in g.residues
    requires forall k | k in Get(Table(g, LinksOf(ResidueNode(h))), p) :: k in g.links
    requires DropMonosaccharide(g, h, p, true).Ok?
    requires Settled(g, Get(Table(g, LinksOf(ResidueNode(h))), p)[0])
    ensures ApplyLink(DropMonosaccharide(g, h, p, true).value, Get(Table(g, LinksOf(ResidueNode(h))), p)[0]) == g
  {
    BreakThenApply(g, Get(Table(g, LinksOf(ResidueNode(h))), p)[0]);
  }

  // ---------------------------------------------------------------------------
  // The reduced end's own substituents

  /** `ReducedEnd.is_occupied`: `float('inf')` for a position above the valence (`'x'` always is, under Python 2 ordering). */
  datatype Occupancy = Count(n: nat) | Unbounded

  predicate AboveValence(p: Position, valence: int) {
    p.X? || p.n > valence
  }

  function ReducedEndIsOccupied(g: Graph, e: nat, p: Position): (r: Occupancy)
    requires e in g.reducedEnds
    ensures r.Unbounded? <==> AboveValence(p, g.reducedEnds[e].valence)
    ensures r.Count? ==> r.n == |Get(Table(g, LinksOf(ReducedEndNode(e))), p)|
  {
    if AboveValence(p, g.reducedEnds[e].valence) then Unbounded
    else Count(|Get(Table(g, LinksOf(ReducedEndNode(e))), p)|)
  }

  /** `ReducedEnd.add_substituent`: an unbounded site is always occupied; otherwise as for a residue, with the link filed in the reduced end's `links`. */
  function ReducedEndAddSubstituent(g: Graph, e: nat, name: string, p: Position, maxOccupancy: int, cp: Position,
                                    parentLoss: Option<Composition>, childLoss: Option<Composition>, subId: int, linkId: int): (r: Result<Graph, EditError>)
    requires e in g.reducedEnds
    ensures r.Err? <==> ReducedEndIsOccupied(g, e, p).Unbounded? || ReducedEndIsOccupied(g, e, p).n > maxOccupancy
    ensures r.Err? ==> r.error == SiteOccupied
  {
    match ReducedEndIsOccupied(g, e, p)
    case Unbounded => Err(SiteOccupied)
    case Count(n) =>
      if n > maxOccupancy then Err(SiteOccupied)
      else Ok(NewLink(NewSubstituent(g, name, subId), SubstituentLink(ReducedEndNode(e), g.next, p, cp, parentLoss, childLoss, linkId)))
  }

  /** A substituent added to a reduced end occupies its position once more. */
  lemma ReducedEndAddOccupancy(g: Graph, e: nat, name: string, p: Position, maxOccupancy: int, cp: Position,
                               parentLoss: Option<Composition>, childLoss: Option<Composition>, subId: int, linkId: int)
    requires e in g.reducedEnds && ReducedEndAddSubstituent(g, e, name, p, maxOccupancy, cp, parentLoss, childLoss, subId, linkId).Ok?
    ensures var r := ReducedEndAddSubstituent(g, e, name, p, maxOccupancy, cp, parentLoss, childLoss, subId, linkId).value;
      e in r.reducedEnds && ReducedEndIsOccupied(r, e, p) == Count(ReducedEndIsOccupied(g, e, p).n + 1)
  {
    ReducedEndAddIs(g, e, name, p, maxOccupancy, cp, parentLoss, childLoss, subId, linkId);
    NewSubstituentOnReducedEnd(g, e, name, subId, SubstituentLink(ReducedEndNode(e), g.next, p, cp, parentLoss, childLoss, linkId));
  }

  /** A new substituent linked below a reduced end occupies the link's position there once more. */
  lemma NewSubstituentOnReducedEnd(g: Graph, e: nat, name: string, subId: int, l: Link)
    requires e in g.reducedEnds && l.parent == ReducedEndNode(e) && l.child == SubstituentNode(g.next) && !l.attached
    requires !AboveValence(l.parentPosition, g.reducedEnds[e].valence)
    ensures var r := NewLink(NewSubstituent(g, name, subId), l);
      e in r.reducedEnds && ReducedEndIsOccupied(r, e, l.parentPosition) == Count(ReducedEndIsOccupied(g, e, l.parentPosition).n + 1)
  {
    var r := NewLink(NewSubstituent(g, name, subId), l);
    NewSubstituentTable(g, name, subId, l, LinksOf(ReducedEndNode(e)));
    NewSubstituentLinks(g, name, subId, l);
    ReducedEndOccupiedAfter(g, r, e, l.parentPosition, g.next + 1);
  }

  /** One more handle filed at `p` in a reduced end's `links` occupies `p` once more. */
  lemma ReducedEndOccupiedAfter(g: Graph, r: Graph, e: nat, p: Position, k: nat)
    requires e in g.reducedEnds && r.reducedEnds == g.reducedEnds && !AboveValence(p, g.reducedEnds[e].valence)
    requires Table(r, LinksOf(ReducedEndNode(e))) == Put(Table(g, LinksOf(ReducedEndNode(e))), p, k)
    ensures ReducedEndIsOccupied(r, e, p) == Count(ReducedEndIsOccupied(g, e, p).n + 1)
  {
    GetPut(Table(g, LinksOf(ReducedEndNode(e))), p, k, p);
  }

  /** A successful `ReducedEnd.add_substituent` makes the substituent and then the link to it. */
  lemma ReducedEndAddIs(g: Graph, e: nat, name: string, p: Position, maxOccupancy: int, cp: Position,
                        parentLoss: Option<Composition>, childLoss: Option<Composition>, subId: int, linkId: int)
    requires e in g.reducedEnds && ReducedEndAddSubstituent(g, e, name, p, maxOccupancy, cp, parentLoss, childLoss, subId, linkId).Ok?
    ensures ReducedEndAddSubstituent(g, e, name, p, maxOccupancy, cp, parentLoss, childLoss, subId, linkId).value ==
      NewLink(NewSubstituent(g, name, subId), SubstituentLink(ReducedEndNode(e), g.next, p, cp, parentLoss, childLoss, linkId))
    ensures ReducedEndIsOccupied(g, e, p).Count?
  {
  }

  /**
   * `ReducedEnd.drop_substituent` as written: the test reads the name of
   * the requested substituent before asking whether it is None, so with no
   * substituent given the first link at the position raises AttributeError.
   */
  function ReducedEndDropSubstituentAsWritten(g: Graph, e: nat, p: Position, name: Option<string>, refund: bool): Result<Graph, EditError>
    requires e in g.reducedEnds
  {
    if AboveValence(p, g.reducedEnds[e].valence) then Err(IndexOutOfBounds)
    else
      var ks := Get(Table(g, LinksOf(ReducedEndNode(e))), p);
      if name.None? && |ks| > 0 then Err(NameOfNone)
      else
        match FindSubstituentLink(g, ks, name, 0)
        case None => Err(SubstituentNotFound)
        case Some(i) => Ok(BreakLink(g, ks[i], refund))
  }

  /** `ReducedEnd.drop_substituent` as evidently intended: like the residue's, no substituent given means the first one. */
  function ReducedEndDropSubstituent(g: Graph, e: nat, p: Position, name: Option<string>, refund: bool): (r: Result<Graph, EditError>)
    requires e in g.reducedEnds
    ensures r.Err? <==> AboveValence(p, g.reducedEnds[e].valence) ||
                        FindSubstituentLink(g, Get(Table(g, LinksOf(ReducedEndNode(e))), p), name, 0).None?
    ensures r.Err? ==> r.error in {IndexOutOfBounds, SubstituentNotFound}
  {
    if AboveValence(p, g.reducedEnds[e].valence) then Err(IndexOutOfBounds)
    else
      var ks := Get(Table(g, LinksOf(ReducedEndNode(e))), p);
      match FindSubstituentLink(g, ks, name, 0)
      case None => Err(SubstituentNotFound)
      case Some(i) => Ok(BreakLink(g, ks[i], refund))
  }

  /**
   * With no substituent named, the written drop fails at every occupied
   * position, while the intended one breaks the first substituent link there.
   */
  lemma ReducedEndDropUnnamed(g: Graph, e: nat, p: Position, refund: bool)
    requires e in g.reducedEnds && !AboveValence(p, g.reducedEnds[e].valence)
    requires var ks := Get(Table(g, LinksOf(ReducedEndNode(e))), p); |ks| > 0 && NamedSubstituentLink(g, ks[0], None)
    ensures ReducedEndDropSubstituentAsWritten(g, e, p, None, refund) == Err(NameOfNone)
    ensures ReducedEndDropSubstituent(g, e, p, None, refund) ==
            Ok(BreakLink(g, Get(Table(g, LinksOf(ReducedEndNode(e))), p)[0], refund))
  {
  }

  /** Whenever a name is given, the written and the intended drop agree. */
  lemma ReducedEndDropNamedAgrees(g: Graph, e: nat, p: Position, name: string, refund: bool)
    requires e in g.reducedEnds
    ensures ReducedEndDropSubstituentAsWritten(g, e, p, Some(name), refund) == ReducedEndDropSubstituent(g, e, p, Some(name), refund)
  {
  }

  // ---------------------------------------------------------------------------
  // Ring type

  /**
   * `ring_type`: `ring_end - ring_start` of 4, 3 and 0 give pyranose,
   * furanose and open; another difference, or bounds that are not both
   * integers (the subtraction raises TypeError), give `x`.
   */
  function RingType(r: Residue): (t: EnumValue)
    ensures t in {Pyranose, Furanose, OpenRing, UnknownRing}
    ensures t == UnknownRing <==>
      !(r.ringStart.RingAt? && r.ringEnd.RingAt? && r.ringEnd.n - r.ringStart.n in {0, 3, 4})
    ensures t in {Pyranose, Furanose} ==> t.value == IntKey(r.ringEnd.n - r.ringStart.n + 2)
    ensures t == OpenRing ==> r.ringEnd.n == r.ringStart.n
  {
    if r.ringStart.RingAt? && r.ringEnd.RingAt? then
      var diff := r.ringEnd.n - r.ringStart.n;
      if diff == 4 then Pyranose
      else if diff == 3 then Furanose
      else if diff == 0 then OpenRing
      else UnknownRing
    else UnknownRing
  }
}
