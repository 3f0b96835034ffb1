/**
 * `Monosaccharide.open_attachment_sites` (pygly2/structure/monosaccharide.py):
 * tally what occupies each backbone position in a slots array, then list the
 * positions that are still open.
 */
module OpenSites {
  import opened Wrappers
  import opened MultiMaps
  import opened Enums
  import opened Constants
  import opened Compositions
  import opened Graphs
  import opened Monosaccharides

  /** The exceptions the source raises on the way. */
  datatype SiteError =
    | NoBackbone      // TypeError: `[0] * superclass.value` with a non-numeric value
    | SlotOutOfRange  // IndexError: `slots[pos - 1]` past either end of the list
    | PopFromEmpty    // IndexError: `open_slots.pop()` on an empty list

  /** One entry of the chained `items()`: its position, and whether it is `Modification.keto`. */
  type Placement = (Position, bool)

  /** The modification entries; only a keto modification compares equal to `Modification.keto`. */
  function ModPlacements(items: seq<(Position, Modifier)>): (r: seq<Placement>)
    ensures |r| == |items|
    ensures forall j | 0 <= j < |items| :: r[j] == (items[j].0, items[j].1.Mod? && Eq(Keto, items[j].1.m))
  {
    if |items| == 0 then []
    else [(items[0].0, items[0].1.Mod? && Eq(Keto, items[0].1.m))] + ModPlacements(items[1..])
  }

  /** Link entries: a link is never `Modification.keto`. */
  function LinkPlacements(items: seq<(Position, nat)>): (r: seq<Placement>)
    ensures |r| == |items|
    ensures forall j | 0 <= j < |items| :: r[j] == (items[j].0, false)
  {
    if |items| == 0 then [] else [(items[0].0, false)] + LinkPlacements(items[1..])
  }

  /** `chain(modifications.items(), links.items(), substituent_links.items())` */
  function Placements(g: Graph, h: nat): seq<Placement>
    requires h in g.residues
  {
    ModPlacements(Items(Mods(g, h))) +
    LinkPlacements(Items(Table(g, LinksOf(ResidueNode(h))))) +
    LinkPlacements(Items(Table(g, SubstituentLinksOf(h))))
  }

  /** Python list indexing: `k` or `k + size` for `-size <= k < 0`, and nothing past either end. */
  function PyIndex(k: int, size: nat): (r: Option<nat>)
    ensures r.Some? <==> -(size as int) <= k < size
    ensures r.Some? ==> r.value < size && (r.value == k || r.value == k + size)
  {
    if 0 <= k < size then Some(k) else if -(size as int) <= k < 0 then Some(k + size) else None
  }

  /** An entry that goes into a slot: not keto, and at a known position. */
  predicate Counted(x: Placement) {
    !x.1 && x.0.At? && x.0.n != -1
  }

  /** An entry that counts as an unknown location: not keto, at `-1` or `'x'`. */
  predicate Unplaced(x: Placement) {
    !x.1 && UnknownPosition(x.0)
  }

  /** How many entries the loop adds to `slots[i]`. */
  function CountAt(e: seq<Placement>, i: nat, size: nat): nat {
    if |e| == 0 then 0
    else
      var x := e[|e| - 1];
      CountAt(e[..|e| - 1], i, size) + (if Counted(x) && PyIndex(x.0.n - 1, size) == Some(i) then 1 else 0)
  }

  /** How many entries the loop counts in `unknowns`. */
  function Unknowns(e: seq<Placement>): nat {
    if |e| == 0 then 0 else Unknowns(e[..|e| - 1]) + (if Unplaced(e[|e| - 1]) then 1 else 0)
  }

  /** Every counted entry indexes the slots list. */
  predicate Fits(e: seq<Placement>, size: nat) {
    forall j | 0 <= j < |e| :: Counted(e[j]) ==> PyIndex(e[j].0.n - 1, size).Some?
  }

  /** The slots list after the first loop. */
  function SlotCounts(e: seq<Placement>, size: nat): (r: seq<nat>)
    ensures |r| == size && forall i | 0 <= i < size :: r[i] == CountAt(e, i, size)
  {
    seq(size, i requires 0 <= i < size => CountAt(e, i, size))
  }

  /** `ring_end in {-1, 'x'}` */
  predicate RingUnknown(b: RingBound) {
    b == RingAt(-1) || b == RingText("x")
  }

  /** The second loop over the first `n` slots: an open slot is listed by position, or as `-1` when positions are hidden. */
  function OpenUpTo(slots: seq<nat>, maxOccupancy: int, ringEnd: RingBound, hidden: bool, n: nat): seq<int>
    requires n <= |slots|
  {
    if n == 0 then []
    else
      OpenUpTo(slots, maxOccupancy, ringEnd, hidden, n - 1) +
      (if slots[n - 1] <= maxOccupancy && ringEnd != RingAt(n) then [if hidden then -1 else n] else [])
  }

  /** `[0] * superclass.value` has no slots for a negative value. */
  function SlotCount(size: int): nat {
    if size < 0 then 0 else size
  }

  /** The open list the second loop builds over the tallied slots, before the pop. */
  function OpenList(e: seq<Placement>, n: nat, ringEnd: RingBound, maxOccupancy: int): seq<int> {
    OpenUpTo(SlotCounts(e, n), maxOccupancy, ringEnd, Unknowns(e) > 0 || RingUnknown(ringEnd), n)
  }

  /**
   * `open_attachment_sites(max_occupancy)` as written: the open positions
   * and the number of unknown locations, with the pop at the end failing
   * when the ring end is unknown and nothing is open.
   */
  function OpenSitesAsWritten(e: seq<Placement>, size: Option<int>, ringEnd: RingBound, maxOccupancy: int): Result<(seq<int>, nat), SiteError> {
    if size.None? then Err(NoBackbone)
    else
      var n := SlotCount(size.value);
      if !Fits(e, n) then Err(SlotOutOfRange)
      else
        var open := OpenList(e, n, ringEnd, maxOccupancy);
        if RingUnknown(ringEnd) then
          if |open| == 0 then Err(PopFromEmpty) else Ok((open[..|open| - 1], Unknowns(e)))
        else Ok((open, Unknowns(e)))
  }

  /**
   * The same with the evident intent for the pop: an unknown ring end takes
   * one open site away, and with none open there is nothing to take.
   */
  function OpenSites(e: seq<Placement>, size: Option<int>, ringEnd: RingBound, maxOccupancy: int): Result<(seq<int>, nat), SiteError> {
    if size.None? then Err(NoBackbone)
    else
      var n := SlotCount(size.value);
      if !Fits(e, n) then Err(SlotOutOfRange)
      else
        var open := OpenList(e, n, ringEnd, maxOccupancy);
        if RingUnknown(ringEnd) && |open| > 0 then Ok((open[..|open| - 1], Unknowns(e)))
        else Ok((open, Unknowns(e)))
  }

  // ---------------------------------------------------------------------------
  // The loops

  lemma FitsExtend(e: seq<Placement>, j: nat, size: nat)
    requires j < |e| && Fits(e[..j], size) && (Counted(e[j]) ==> PyIndex(e[j].0.n - 1, size).Some?)
    ensures Fits(e[..j + 1], size)
  {
    assert forall k | 0 <= k < j + 1 :: e[..j + 1][k] == e[k];
    assert forall k | 0 <= k < j :: e[..j][k] == e[k];
  }

  /**
   * The first loop of the source: a fresh slots array of `n` zeros, one more
   * in the slot of each counted entry, and the count of unknown locations.
   * It stops with `fits` false at the first entry past either end.
   */
  method Tally(e: seq<Placement>, n: nat) returns (slots: array<nat>, unknowns: nat, fits: bool)
    ensures fresh(slots) && slots.Length == n
    ensures fits == Fits(e, n)
    ensures fits ==> slots[..] == SlotCounts(e, n) && unknowns == Unknowns(e)
  {
    slots := new nat[n](_ => 0);
    unknowns := 0;
    var j := 0;
    while j < |e|
      invariant 0 <= j <= |e| && slots.Length == n
      invariant forall i | 0 <= i < n :: slots[i] == CountAt(e[..j], i, n)
      invariant unknowns == Unknowns(e[..j])
      invariant Fits(e[..j], n)
    {
      var x := e[j];
      assert e[..j + 1][..j] == e[..j] && e[..j + 1][j] == x;
      if !x.1 {
        if UnknownPosition(x.0) {
          unknowns := unknowns + 1;
        } else {
          var k := PyIndex(x.0.n - 1, n);
          if k.None? {
            assert Counted(e[j]) && PyIndex(e[j].0.n - 1, n).None?;
            return slots, unknowns, false;
          }
          slots[k.value] := slots[k.value] + 1;
        }
      }
      FitsExtend(e, j, n);
      j := j + 1;
    }
    assert e[..|e|] == e;
    fits := true;
  }

  /** The second loop of the source: the open slots, in order. */
  method ListOpen(slots: array<nat>, maxOccupancy: int, ringEnd: RingBound, hidden: bool) returns (open: seq<int>)
    ensures open == OpenUpTo(slots[..], maxOccupancy, ringEnd, hidden, slots.Length)
  {
    open := [];
    var i := 0;
    while i < slots.Length
      invariant 0 <= i <= slots.Length
      invariant open == OpenUpTo(slots[..], maxOccupancy, ringEnd, hidden, i)
    {
      if slots[i] <= maxOccupancy && ringEnd != RingAt(i + 1) {
        open := open + [if hidden then -1 else i + 1];
      }
      i := i + 1;
    }
  }

  /**
   * `open_attachment_sites(max_occupancy)`: the positions open for binding
   * and the count of unknown locations, with the pop guarded as intended.
   */
  method OpenAttachmentSites(g: Graph, h: nat, maxOccupancy: int) returns (r: Result<(seq<int>, nat), SiteError>)
    requires h in g.residues
    ensures r == OpenSites(Placements(g, h), BackboneSize(g.residues[h]), g.residues[h].ringEnd, maxOccupancy)
  {
    var size := BackboneSize(g.residues[h]);
    var ringEnd := g.residues[h].ringEnd;
    if size.None? {
      return Err(NoBackbone);
    }
    var slots, unknowns, fits := Tally(Placements(g, h), SlotCount(size.value));
    if !fits {
      return Err(SlotOutOfRange);
    }
    var open := ListOpen(slots, maxOccupancy, ringEnd, unknowns > 0 || RingUnknown(ringEnd));
    if RingUnknown(ringEnd) && |open| > 0 {
      open := open[..|open| - 1];
    }
    return Ok((open, unknowns));
  }

  // ---------------------------------------------------------------------------
  // What the open list says

  /** Hidden positions: the same number of sites, each reported as `-1`. */
  lemma {:induction false} OpenUpToHidden(slots: seq<nat>, maxOccupancy: int, ringEnd: RingBound, n: nat)
    requires n <= |slots|
    ensures |OpenUpTo(slots, maxOccupancy, ringEnd, true, n)| == |OpenUpTo(slots, maxOccupancy, ringEnd, false, n)|
    ensures forall i | 0 <= i < |OpenUpTo(slots, maxOccupancy, ringEnd, true, n)| :: OpenUpTo(slots, maxOccupancy, ringEnd, true, n)[i] == -1
  {
    if n > 0 {
      OpenUpToHidden(slots, maxOccupancy, ringEnd, n - 1);
    }
  }

  /** Known positions: ascending, and each between 1 and the number of slots. */
  lemma {:induction false} OpenUpToAscending(slots: seq<nat>, maxOccupancy: int, ringEnd: RingBound, n: nat)
    requires n <= |slots|
    ensures forall i | 0 <= i < |OpenUpTo(slots, maxOccupancy, ringEnd, false, n)| :: 1 <= OpenUpTo(slots, maxOccupancy, ringEnd, false, n)[i] <= n
    ensures forall i, j | 0 <= i < j < |OpenUpTo(slots, maxOccupancy, ringEnd, false, n)| ::
      OpenUpTo(slots, maxOccupancy, ringEnd, false, n)[i] < OpenUpTo(slots, maxOccupancy, ringEnd, false, n)[j]
  {
    if n > 0 {
      OpenUpToAscending(slots, maxOccupancy, ringEnd, n - 1);
    }
  }

  /** A known position is listed exactly when its slot holds no more than `max_occupancy` and it is not the ring end. */
  lemma {:induction false} OpenUpToMembers(slots: seq<nat>, maxOccupancy: int, ringEnd: RingBound, n: nat, v: int)
    requires n <= |slots|
    ensures v in OpenUpTo(slots, maxOccupancy, ringEnd, false, n) <==>
      1 <= v <= n && slots[v - 1] <= maxOccupancy && ringEnd != RingAt(v)
  {
    if n > 0 {
      OpenUpToMembers(slots, maxOccupancy, ringEnd, n - 1, v);
    }
  }

  // ---------------------------------------------------------------------------
  // The pop

  /**
   * A triose whose three positions are all taken, with an unknown ring end:
   * as written the final pop raises IndexError; the intended result is no
   * open site.
   */
  lemma PopFromEmptyExample()
    ensures OpenSitesAsWritten([(At(1), false), (At(2), false), (At(3), false)], Some(3), RingAt(-1), 0) == Err(PopFromEmpty)
    ensures OpenSites([(At(1), false), (At(2), false), (At(3), false)], Some(3), RingAt(-1), 0) == Ok(([], 0))
  {
    var e1: seq<Placement> := [(At(1), false)];
    var e2 := e1 + [(At(2), false)];
    var e := e2 + [(At(3), false)];
    assert e[..2] == e2 && e2[..1] == e1 && e1[..0] == [];
    assert CountAt(e1, 0, 3) == 1 && CountAt(e1, 1, 3) == 0 && CountAt(e1, 2, 3) == 0;
    assert CountAt(e2, 0, 3) == 1 && CountAt(e2, 1, 3) == 1 && CountAt(e2, 2, 3) == 0;
    assert CountAt(e, 0, 3) == 1 && CountAt(e, 1, 3) == 1 && CountAt(e, 2, 3) == 1;
    var c := SlotCounts(e, 3);
    assert Fits(e, 3);
    assert Unknowns(e1) == 0 && Unknowns(e2) == 0 && Unknowns(e) == 0;
    assert OpenUpTo(c, 0, RingAt(-1), true, 1) == [];
    assert OpenUpTo(c, 0, RingAt(-1), true, 2) == [];
    assert OpenUpTo(c, 0, RingAt(-1), true, 3) == [];
    assert OpenList(e, 3, RingAt(-1), 0) == [];
    assert e == [(At(1), false), (At(2), false), (At(3), false)];
  }

  /** The corrected function fails exactly where the source raises before the pop, and otherwise agrees with it. */
  lemma OpenSitesCorrected(e: seq<Placement>, size: Option<int>, ringEnd: RingBound, maxOccupancy: int)
    ensures OpenSites(e, size, ringEnd, maxOccupancy).Err? <==> size.None? || !Fits(e, SlotCount(size.value))
    ensures OpenSitesAsWritten(e, size, ringEnd, maxOccupancy) != Err(PopFromEmpty) ==>
      OpenSites(e, size, ringEnd, maxOccupancy) == OpenSitesAsWritten(e, size, ringEnd, maxOccupancy)
    ensures OpenSitesAsWritten(e, size, ringEnd, maxOccupancy) == Err(PopFromEmpty) ==>
      OpenSites(e, size, ringEnd, maxOccupancy) == Ok(([], Unknowns(e)))
  {
  }

  // ---------------------------------------------------------------------------
  // Agreement with `is_occupied`

  /** How many entries are counted at position `v`. */
  function CountPos(e: seq<Placement>, v: int): nat {
    if |e| == 0 then 0
    else (if Counted(e[0]) && e[0].0 == At(v) then 1 else 0) + CountPos(e[1..], v)
  }

  lemma {:induction false} CountPosAppend(a: seq<Placement>, b: seq<Placement>, v: int)
    ensures CountPos(a + b, v) == CountPos(a, v) + CountPos(b, v)
  {
    if |a| > 0 {
      assert (a + b)[0] == a[0] && (a + b)[1..] == a[1..] + b;
      CountPosAppend(a[1..], b, v);
    } else {
      assert a + b == b;
    }
  }

  /** Every counted entry names a slot directly: no Python negative index wraps round. */
  predicate InRange(e: seq<Placement>, size: nat) {
    forall j | 0 <= j < |e| :: Counted(e[j]) ==> 1 <= e[j].0.n <= size
  }

  lemma InRangeFits(e: seq<Placement>, size: nat)
    requires InRange(e, size)
    ensures Fits(e, size)
  {
  }

  /** With every entry in range, slot `v - 1` holds the entries at position `v`. */
  lemma {:induction false} CountAtIsCountPos(e: seq<Placement>, v: int, size: nat)
    requires InRange(e, size) && 1 <= v <= size
    ensures CountAt(e, v - 1, size) == CountPos(e, v)
  {
    if |e| > 0 {
      var init := e[..|e| - 1];
      var x := e[|e| - 1];
      assert forall j | 0 <= j < |init| :: init[j] == e[j];
      CountAtIsCountPos(init, v, size);
      assert init + [x] == e;
      CountPosAppend(init, [x], v);
      assert [x][1..] == [];
    }
  }

  lemma {:induction false} LinkCount(items: seq<(Position, nat)>, v: int)
    requires v != -1
    ensures CountPos(LinkPlacements(items), v) == |ValuesAt(items, At(v))|
  {
    if |items| > 0 {
      var x: Placement := (items[0].0, false);
      assert LinkPlacements(items) == [x] + LinkPlacements(items[1..]);
      CountPosAppend([x], LinkPlacements(items[1..]), v);
      assert [x][1..] == [];
      LinkCount(items[1..], v);
    }
  }

  /** The keto modifications in a list. */
  function KetoCount(vs: seq<Modifier>): nat {
    if |vs| == 0 then 0 else (if vs[0].Mod? && Eq(Keto, vs[0].m) then 1 else 0) + KetoCount(vs[1..])
  }

  lemma {:induction false} KetoCountHasKeto(vs: seq<Modifier>)
    ensures KetoCount(vs) > 0 <==> HasKeto(vs)
  {
    if |vs| > 0 {
      KetoCountHasKeto(vs[1..]);
      if HasKeto(vs) && !(vs[0].Mod? && Eq(Keto, vs[0].m)) {
        var i :| 0 <= i < |vs| && vs[i].Mod? && Eq(Keto, vs[i].m);
        assert vs[1..][i - 1] == vs[i];
      }
      if HasKeto(vs[1..]) {
        var i :| 0 <= i < |vs[1..]| && vs[1..][i].Mod? && Eq(Keto, vs[1..][i].m);
        assert vs[i + 1] == vs[1..][i];
      }
    }
  }

  lemma {:induction false} KetoCountAppend(a: seq<Modifier>, b: seq<Modifier>)
    ensures KetoCount(a + b) == KetoCount(a) + KetoCount(b)
  {
    if |a| > 0 {
      assert (a + b)[0] == a[0] && (a + b)[1..] == a[1..] + b;
      KetoCountAppend(a[1..], b);
    } else {
      assert a + b == b;
    }
  }

  lemma {:induction false} ModCount(items: seq<(Position, Modifier)>, v: int)
    requires v != -1
    ensures CountPos(ModPlacements(items), v) + KetoCount(ValuesAt(items, At(v))) == |ValuesAt(items, At(v))|
  {
    if |items| > 0 {
      var x: Placement := (items[0].0, items[0].1.Mod? && Eq(Keto, items[0].1.m));
      assert ModPlacements(items) == [x] + ModPlacements(items[1..]);
      CountPosAppend([x], ModPlacements(items[1..]), v);
      assert [x][1..] == [];
      var head := if items[0].0 == At(v) then [items[0].1] else [];
      assert ValuesAt(items, At(v)) == head + ValuesAt(items[1..], At(v));
      KetoCountAppend(head, ValuesAt(items[1..], At(v)));
      ModCount(items[1..], v);
    }
  }

  /** The counted entries at `v` are the occupants `is_occupied` reports, when at most one keto sits there. */
  lemma PlacementsCount(g: Graph, h: nat, v: int)
    requires h in g.residues && v != -1
    requires Valid(Mods(g, h)) && Valid(Table(g, LinksOf(ResidueNode(h)))) && Valid(Table(g, SubstituentLinksOf(h)))
    requires KetoCount(Get(Mods(g, h), At(v))) <= 1
    ensures CountPos(Placements(g, h), v) == Occupants(g, h, At(v))
  {
    var mods := Items(Mods(g, h));
    var links := Items(Table(g, LinksOf(ResidueNode(h))));
    var subst := Items(Table(g, SubstituentLinksOf(h)));
    CountPosAppend(ModPlacements(mods) + LinkPlacements(links), LinkPlacements(subst), v);
    CountPosAppend(ModPlacements(mods), LinkPlacements(links), v);
    ModCount(mods, v);
    LinkCount(links, v);
    LinkCount(subst, v);
    ItemsAt(Mods(g, h), At(v));
    ItemsAt(Table(g, LinksOf(ResidueNode(h))), At(v));
    ItemsAt(Table(g, SubstituentLinksOf(h)), At(v));
    KetoCountHasKeto(Get(Mods(g, h), At(v)));
  }

  /**
   * With every attachment at a known position on the backbone and a known
   * ring end, position `v` is listed open exactly when `is_occupied(v)`
   * answers at most `max_occupancy` and `v` is not the ring end.
   */
  lemma OpenSitesAgreeWithIsOccupied(g: Graph, h: nat, maxOccupancy: int, v: int)
    requires h in g.residues && v != -1
    requires Valid(Mods(g, h)) && Valid(Table(g, LinksOf(ResidueNode(h)))) && Valid(Table(g, SubstituentLinksOf(h)))
    requires BackboneSize(g.residues[h]).Some?
    requires InRange(Placements(g, h), SlotCount(BackboneSize(g.residues[h]).value))
    requires Unknowns(Placements(g, h)) == 0 && !RingUnknown(g.residues[h].ringEnd)
    requires KetoCount(Get(Mods(g, h), At(v))) <= 1
    ensures OpenSites(Placements(g, h), BackboneSize(g.residues[h]), g.residues[h].ringEnd, maxOccupancy).Ok?
    ensures v in OpenSites(Placements(g, h), BackboneSize(g.residues[h]), g.residues[h].ringEnd, maxOccupancy).value.0 <==>
      IsOccupied(g, h, At(v)).Ok? && IsOccupied(g, h, At(v)).value <= maxOccupancy && g.residues[h].ringEnd != RingAt(v)
  {
    var size := BackboneSize(g.residues[h]).value;
    OpenSitesMembers(Placements(g, h), size, g.residues[h].ringEnd, maxOccupancy, v);
    if 1 <= v <= SlotCount(size) {
      PlacementsCount(g, h, v);
    }
  }

  /** With every entry in range and a known ring end, `v` is open exactly when its slot is within bounds, at most full and not the ring end. */
  lemma OpenSitesMembers(e: seq<Placement>, size: int, ringEnd: RingBound, maxOccupancy: int, v: int)
    requires InRange(e, SlotCount(size)) && Unknowns(e) == 0 && !RingUnknown(ringEnd)
    ensures OpenSites(e, Some(size), ringEnd, maxOccupancy).Ok?
    ensures v in OpenSites(e, Some(size), ringEnd, maxOccupancy).value.0 <==>
      1 <= v <= SlotCount(size) && CountPos(e, v) <= maxOccupancy && ringEnd != RingAt(v)
  {
    var n := SlotCount(size);
    InRangeFits(e, n);
    OpenUpToMembers(SlotCounts(e, n), maxOccupancy, ringEnd, n, v);
    if 1 <= v <= n {
      CountAtIsCountPos(e, v, n);
    }
  }
}
