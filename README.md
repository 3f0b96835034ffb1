# pygly2 glycan core in Dafny

This project models the core of pygly2, a Python 2 library for glycan
structures. A glycan is a graph of monosaccharide residues joined by
glycosidic links, with substituents hanging off backbone positions. The
model covers:

- the insertion-ordered multimap in which every residue files its
  modifications, links and substituent links by position;
- the categorical enums (anomer, superclass, stem, configuration,
  modification, ring type) and their group-aware equality;
- the small utilities: the counter closure, `chrinc` and `invert_dict`;
- the integer composition tables: superclass base formulas and
  position-dependent modification rules;
- a residue's position bookkeeping: occupancy, open attachment sites,
  adding and dropping modifications, substituents and links, the ring
  type, the reducing end, and the three kinds of residue equality;
- the glycan's graph algorithms: depth-first and breadth-first
  traversal, `iterlinks`, `reindex`, `label_branches`,
  `count_branches`, `get`, the `break_links` and
  `break_links_subtrees` enumerators, `fragments` and
  `name_fragment`;
- the condensed GlycoCT reader: token splitting, the
  START/RES/LIN state machine, residue, substituent and linkage lines,
  and its typed errors.

The graph is an arena. Residues, substituents and reducing ends are kept
in maps from handles, and links in a map from link handles. Every
residue's position tables and running composition are kept beside them.
Pure functions over this value (`Graphs.Graph`) are the specification.
The classes `Glycans.Glycan`, `MultiMaps.OrderedMultiMap`,
`Base.Counter` and `GlycoCT.GlycoCTReader` keep the source's mutable
state in fields. Their methods are proved against those functions.

A link is detached by popping it from the position tables of both
endpoints and refunding its losses to their compositions. Re-applying
it files it again, at the end of each list, and debits the losses again.
Link and substituent classes live in files that are not part of this
model; the link operations are reconstructed from how the residue and
glycan code uses them.

Python 2 comparison rules apply where the source relies on them: a
string ranks above every number, and `None` below. Dafny's unbounded
integers stand for Python's unbounded integers.

## Model

| member | source | states |
|---|---|---|
| MultiMaps.Empty | pygly2/utils/multimap.py:109-111 | a new ordered multimap is well formed: no keys, no lists |
| MultiMaps.RemoveFirstAt | pygly2/utils/multimap.py:31 | `objs.pop(objs.index(value))` removes exactly the first occurrence of the value |
| MultiMaps.RemoveFirstLength | pygly2/utils/multimap.py:31 | removing a value shortens the list by one when the value is present and leaves it alone otherwise |
| MultiMaps.GetPut | pygly2/utils/multimap.py:137-140 | `m[k] = v` appends `v` to the list under `k` and leaves every other key's list as it was |
| MultiMaps.PutAppends | pygly2/utils/multimap.py:137-140 | storing keeps the map well formed, appends under the key in `items()` order, and an old key keeps its place in the key order |
| MultiMaps.PutNewKey | pygly2/utils/multimap.py:137-140 | a key stored for the first time goes at the end of the key order, and its one pair at the very end of `items()` |
| MultiMaps.PutValid | pygly2/utils/multimap.py:137-140 | storing keeps every key listed once, each stored key with a non-empty list |
| MultiMaps.ItemsPutSplit | pygly2/utils/multimap.py:128-140 | storing inserts exactly one pair into `items()`, with every other pair kept in its order |
| MultiMaps.ItemsAt | pygly2/utils/multimap.py:128-135 | reading `items()` back by key gives exactly `m[key]`, in insertion order, and nothing for a key never stored |
| MultiMaps.ValuesAtIff | pygly2/utils/multimap.py:128-135 | a value is among the values `items()` pairs with a key exactly when that pair is among the items |
| MultiMaps.ValuesAreItemValues | pygly2/utils/multimap.py:56-62 | the nested loop of `values()` (each key in key order, each value under it) yields exactly the second components of the pairs of `items()`, in the same order |
| MultiMaps.PopRemovesFirst | pygly2/utils/multimap.py:20-34 | `pop(key, value)` fails exactly when the value is not stored under the key; otherwise the key order stays, `items()` loses exactly the first matching pair, other keys are untouched, and the count returned is what is left |
| MultiMaps.PutThenPop | pygly2/utils/multimap.py:17-34 | popping a value just stored (and not stored before) gives back the same contents and items |
| MultiMaps.PopThenPut | pygly2/utils/multimap.py:17-34 | popping the last value under a key and storing it again gives back the very same multimap |
| MultiMaps.FirstKeyHolding | pygly2/utils/multimap.py:36-40 | the scan of `popv` stops at a key whose list holds the value, and no key before it in key order holds it; it finds none exactly when no key holds the value |
| MultiMaps.PopVFindsAnyHolder | pygly2/utils/multimap.py:36-41 | `popv` returns `None` and changes nothing exactly when no list holds the value; otherwise the value leaves the list of the first key holding it (its first occurrence there), every other list and the key order stay, the returned count is what remains under that key, and one value fewer is stored |
| MultiMaps.LenIsItemCount | pygly2/utils/multimap.py:73-77 | `len(m)` is the number of pairs `items()` yields |
| MultiMaps.LenPut | pygly2/utils/multimap.py:73-77 | storing one value adds one to `len(m)` |
| MultiMaps.OrderedMultiMap.constructor | pygly2/utils/multimap.py:109-115 | a new object holds the empty multimap |
| MultiMaps.OrderedMultiMap.SetItem | pygly2/utils/multimap.py:137-140 | `__setitem__` leaves the object holding `Put` of what it held |
| MultiMaps.OrderedMultiMap.PopValue | pygly2/utils/multimap.py:20-34 | `pop` raises when the value is missing and then changes nothing; otherwise the object holds `Pop` of what it held and returns the count left |
| MultiMaps.OrderedMultiMap.PopAny | pygly2/utils/multimap.py:36-41 | `popv` leaves the object and its result as `PopV` says |
| MultiMaps.OrderedMultiMap.ItemList | pygly2/utils/multimap.py:128-135 | the loop over the key order and each list yields exactly `Items` |
| MultiMaps.OrderedMultiMap.Length | pygly2/utils/multimap.py:73-77 | the summing loop returns `Len`, which is the number of items |
| MultiMaps.OrderedMultiMap.Equals | pygly2/utils/multimap.py:82-88 | `__eq__` holds exactly when both item sequences are equal, a missing pair counting as a difference |
| MultiMaps.OrderedMultiMap.HasValue | pygly2/utils/multimap.py:97-101 | `has_value` holds exactly when the value is among `values()` |
| Enums.LookupByName | pygly2/utils/enum.py:9-10 | a member used as a dictionary key finds the entry named like the member (its hash is its name), and only such an entry |
| Enums.Lower | pygly2/utils/enum.py:102-105 | `lower()` keeps the length, leaves no capital letter, keeps every character that is not a capital, and turns each capital into its small letter |
| Enums.LowerIdempotent | pygly2/utils/enum.py:102-105 | lowering twice is lowering once |
| Enums.FindName | pygly2/utils/enum.py:106-107 | the class-dictionary lookup finds a member with that name, or there is none |
| Enums.FindEqual | pygly2/utils/enum.py:114-117 | `name(v)` finds the first member comparing equal to the value, or reports that none does |
| Enums.TranslateByName | pygly2/utils/enum.py:79-112 | `translate` of any spelling of a member's name, in any case, gives that member |
| Enums.TranslateByValue | pygly2/utils/enum.py:79-112 | `translate` of a plain value that names no member gives the member carrying that value |
| Enums.TranslateFails | pygly2/utils/enum.py:79-112 | `translate` raises KeyError exactly when no member is named like, or compares equal to, the lowered key |
| Enums.TranslateMemberOwn | pygly2/utils/enum.py:102-107 | `translate` of a member of a well-formed family (as `Modification[modification]` does) gives that very member, found under its own name |
| Enums.TranslateMemberByEquality | pygly2/utils/enum.py:102-118 | a member named like no member of the family raises KeyError exactly when it equals none of them, and otherwise translates to the first member it equals, through `name(k)` and a second lookup |
| Enums.EqWithinFamily | pygly2/utils/enum.py:15-20 | in a well-formed family, two members compare equal exactly when they are the same member |
| Enums.EqNeedsSameGroup | pygly2/utils/enum.py:15-18 | members of different families never compare equal |
| Enums.EqNotSymmetric | pygly2/utils/enum.py:15-19 | `__eq__` is not symmetric: a member whose value is another member's name equals it, but not the other way round |
| Enums.NotEqualAsWrittenIsReflexive | pygly2/utils/enum.py:22-25 | as written, `a != a` holds for every member whose value is not its own name, while `a == a` holds too |
| Enums.NotEqualIrreflexive | pygly2/utils/enum.py:22-25 | with `!=` as the negation of `==`, no member differs from itself and every other member of its family differs from it |
| Constants.NamedMembers | pygly2/structure/monosaccharide.py:5 | the members the residue code names (`deoxy`, `keto`, `aldi`, the ring types, the unknown anomer, configuration, stem and superclass) are the family members they stand for |
| Constants.RankedFamily | pygly2/utils/enum.py:55-59 | a family whose names are lower case and distinct and whose values are distinct non-strings is well formed |
| Constants.StemWellFormed | pygly2/structure/monosaccharide.py:5 | the stem family is well formed |
| Constants.SuperClassWellFormed | pygly2/structure/monosaccharide.py:5 | the superclass family is well formed |
| Constants.ModificationWellFormed | pygly2/structure/monosaccharide.py:5 | the modification family is well formed |
| Constants.AnomerWellFormed | pygly2/structure/monosaccharide.py:5 | the anomer family is well formed |
| Constants.ConfigurationWellFormed | pygly2/structure/monosaccharide.py:5 | the configuration family is well formed |
| Constants.RingTypeWellFormed | pygly2/structure/monosaccharide.py:5 | the ring-type family is well formed |
| Constants.TranslateModification | pygly2/structure/monosaccharide.py:528-531 | `Modification[name]` resolves every modification name, in any case, to its member |
| Constants.SuperClassEq | pygly2/structure/monosaccharide.py:5 | superclass members compare equal exactly when they are the same member |
| Compositions.Extensional | pygly2/composition/structure_composition.py:1 | two compositions with the same count of every element are the same |
| Compositions.AddSubCancel | pygly2/composition/structure_composition.py:16-18 | subtracting what was added gives the original back, and adding back what was subtracted too |
| Compositions.NamedSuperclassesAreCH2O | pygly2/composition/structure_composition.py:49-105 | each named superclass from `sug` to `dec` is one CH2O unit per carbon |
| Compositions.ApplyShift | pygly2/composition/structure_composition.py:16-18 | a rule at a listed position gives its base plus that position's shift, element by element; at any other position the base alone |
| Compositions.RuleLookupAgrees | pygly2/composition/structure_composition.py:35-47 | wherever the written rule lookup succeeds, the corrected one gives the same rule |
| Compositions.RuleLookupUnknownName | pygly2/composition/structure_composition.py:35-47 | for a name without a rule, the written lookup fails (`CompositionRule()` lacks its argument) while the corrected one contributes nothing |
| Compositions.UnknownRuleIsEmpty | pygly2/composition/structure_composition.py:35-47 | the corrected rule of any unknown name contributes nothing at any position |
| Compositions.AcidRuleShift | pygly2/composition/structure_composition.py:115-118 | the acid rule gives `O` at position 1 (the hydrogen shift cancels the loss) and `H-2 O` elsewhere |
| Compositions.PositionIndependentRules | pygly2/composition/structure_composition.py:112-119 | the deoxy rule is `O-1` and the keto rule `H-2` at every position |
| Base.Counter.constructor | pygly2/utils/base.py:34-47 | `make_counter(start)` starts a counter that has been called no times |
| Base.Counter.Call | pygly2/utils/base.py:49-53 | the k-th call returns `start + k - 1` and moves the counter on by one |
| Base.ChrInc | pygly2/utils/base.py:64-65 | `chrinc(a, i)` succeeds exactly when the code `ord(a) + i` is in 0..255, and then moves the code by exactly `i` |
| Base.ChrIncInverse | pygly2/utils/base.py:64-65 | stepping a byte character forward and back again returns it |
| Base.InvertDict | pygly2/utils/base.py:30-31 | `invert_dict(d)` has the values of `d` as keys, each mapped back to a key that carried it |
| Base.InvertTwice | pygly2/utils/base.py:30-31 | inverting a one-to-one dictionary twice gives it back |
| Numerals.NatStringValue | pygly2/io/glycoct.py:297 | the decimal digits written for a residue index (`int(ix)`) read back as that index |
| Numerals.ParseIntToString | pygly2/io/glycoct.py:175-179 | `int(str(n)) == n`, so `try_int` of a written number gives the number |
| Graphs.TableOfWf | pygly2/structure/monosaccharide.py:208 | in a well-formed graph every position table (`links`, `substituent_links`) files only link handles already allocated |
| Graphs.FiledAt | pygly2/structure/monosaccharide.py:721-723 | creating a link stores it under its parent position in the parent's table and its child position in the child's table, and in no other table |
| Graphs.UnfiledAt | pygly2/structure/monosaccharide.py:764 | breaking a link removes it from exactly the parent's and the child's position lists and leaves every other table alone |
| Graphs.DebitedAt | pygly2/structure/monosaccharide.py:721-723 | creating a link subtracts the parent loss from the parent's composition and the child loss from the child's, and nobody else's |
| Graphs.CreditedAt | pygly2/structure/monosaccharide.py:764 | a refunding break adds the losses back to exactly the two ends |
| Graphs.ApplyLink | pygly2/structure/monosaccharide.py:721-723 | applying a link marks it attached and touches no residue, substituent or reducing end; applying an attached link changes nothing else |
| Graphs.BreakLink | pygly2/structure/monosaccharide.py:764 | breaking a link marks it detached and touches no residue, substituent or reducing end; breaking a detached link changes nothing else |
| Graphs.ApplyLinkTable | pygly2/structure/monosaccharide.py:721-723 | applying a detached link appends its handle under the parent position of the parent and the child position of the child |
| Graphs.ApplyLinkComposition | pygly2/structure/monosaccharide.py:721-723 | applying a detached link subtracts the two losses from the two ends and leaves every other composition alone |
| Graphs.BreakLinkTable | pygly2/structure/monosaccharide.py:764 | breaking an attached link pops its handle from both ends' position lists |
| Graphs.BreakLinkComposition | pygly2/structure/monosaccharide.py:675 | breaking with `refund=True` gives both losses back; with `refund=False` no composition changes |
| Graphs.FilingTablesDiffer | pygly2/structure/monosaccharide.py:721-723 | a link between two different objects files itself in two different tables |
| Graphs.ApplyLinkWf | pygly2/structure/monosaccharide.py:721-723 | applying a link keeps the graph well formed |
| Graphs.BreakLinkWf | pygly2/structure/monosaccharide.py:764 | breaking a link keeps the graph well formed |
| Graphs.UnfiledThenFiled | pygly2/structure/glycan.py:902 | re-applying a link whose handle was last in both its slots files it back exactly where it was |
| Graphs.CreditedThenDebited | pygly2/structure/glycan.py:902 | refunding the losses and then charging them again restores every composition |
| Graphs.BrokenLink | pygly2/structure/glycan.py:871 | after `break_link` the link record itself is kept, marked detached |
| Graphs.BreakThenApply | pygly2/structure/glycan.py:871-902 | breaking a link that sits last in both its slots and applying it again gives back the very same graph |
| Graphs.ApplyThenBreak | pygly2/structure/monosaccharide.py:721-764 | creating a link and breaking it with refund gives back every composition, every position list and the items of every table |
| Graphs.SoleSettled | pygly2/structure/glycan.py:871-902 | a link that is the only one at both its positions can be broken and re-applied without loss |
| Graphs.BreakLeavesSlot | pygly2/structure/glycan.py:871 | breaking a link that is alone at its positions leaves any other slot holding one other link as it was |
| Graphs.TidyAfterBreak | pygly2/structure/glycan.py:871 | breaking one link of a graph where every attached link is alone at its positions keeps that property |
| Graphs.PlacedAfterBreak | pygly2/structure/glycan.py:871 | breaking one link keeps every attached link filed at both of its positions |
| Monosaccharides.OccupantsChange | pygly2/structure/monosaccharide.py:484-494 | the occupancy count at a position moves exactly with the number of glycosidic and substituent links filed there |
| Monosaccharides.IsOccupied | pygly2/structure/monosaccharide.py:462-494 | `is_occupied` raises IndexError exactly for a position above the backbone or below 1 other than -1 and `x`, and otherwise counts the occupants, which is zero at an unknown position |
| Monosaccharides.UnknownPositionRejectedAsWritten | pygly2/structure/monosaccharide.py:484 | as written, `is_occupied('x')` raises IndexError, because Python 2 ranks a string above every number; the corrected check answers 0 |
| Monosaccharides.IsOccupiedAgreesOnNumbers | pygly2/structure/monosaccharide.py:484 | on numeric positions the written and the corrected bound checks agree |
| Monosaccharides.OccupiedCheckImpliesDropCheck | pygly2/structure/monosaccharide.py:484 | a position `is_occupied` accepts also passes the bound check of the drop operations |
| Monosaccharides.FirstMarker | pygly2/structure/monosaccharide.py:340-362 | the reducing-end getter finds a `ReducedEnd` among the modifications, or there is none at all |
| Monosaccharides.NoMarkerIff | pygly2/structure/monosaccharide.py:340-362 | `reducing_end` is `None` exactly when no modification at any position is a reducing end |
| Monosaccharides.SetThenGet | pygly2/structure/monosaccharide.py:364-392 | after setting a reducing end on a residue without one, the getter returns it |
| Monosaccharides.SetThenClear | pygly2/structure/monosaccharide.py:364-392 | setting a reducing end and clearing it again gives back the modifications and their order |
| Monosaccharides.AddModification | pygly2/structure/monosaccharide.py:524-535 | with the corrected `is_occupied` and rule lookup of the Findings, `add_modification` raises IndexError exactly for a position out of range and ValueError exactly when the site already holds more than `max_occupancy`; it never changes a link |
| Monosaccharides.AddModificationAsWrittenAgrees | pygly2/structure/monosaccharide.py:484-535 | the written `add_modification` agrees with the corrected one on numbered positions for `aldi` and every modification with a rule; at `x` it always raises IndexError, and a modification without a rule it never records, raising AttributeError wherever the corrected one succeeds on a numbered position |
| Monosaccharides.RulelessAddAsWritten | pygly2/structure/monosaccharide.py:528-534 | as written, adding `en` at a numbered position that passes the occupancy check raises AttributeError: the rule lookup fails and the bare `except` reads `modification.composition`, which a member lacks |
| Monosaccharides.RulelessAddRecorded | pygly2/structure/monosaccharide.py:528-534 | as intended, a modification without a rule is recorded at its position and changes no composition |
| Monosaccharides.RecordModification | pygly2/structure/monosaccharide.py:526-535 | with the corrected rule lookup, recording a modification changes only that residue's modifications and composition, never its backbone or a link |
| Monosaccharides.AddModificationOccupancy | pygly2/structure/monosaccharide.py:496-535 | a modification other than `keto` adds one occupant at its position and nowhere else; a first `keto` adds none |
| Monosaccharides.DropModification | pygly2/structure/monosaccharide.py:561-575 | with the corrected bound and rule lookup of the Findings, `drop_modification` fails only by IndexError or by ValueError, never changes a link, and dropping `aldi` clears the reducing end |
| Monosaccharides.UnrecordModification | pygly2/structure/monosaccharide.py:569-574 | with the corrected rule lookup, removing a modification changes only that residue's modifications and composition |
| Monosaccharides.AddThenDropModification | pygly2/structure/monosaccharide.py:496-575 | adding a modification other than `aldi` and dropping it gives back the modifications, their order and every composition |
| Monosaccharides.AldiDropFailsAsWritten | pygly2/structure/monosaccharide.py:561-575 | as written, `drop_modification(1, aldi)` after `add_modification(aldi)` fails: the stored `ReducedEnd` does not compare equal to `aldi` |
| Monosaccharides.AldiAddThenDrop | pygly2/structure/monosaccharide.py:561-575 | with `aldi` matched to the stored reducing end, adding and dropping `aldi` restores the modifications, clears the reducing end and restores the composition |
| Monosaccharides.DropModificationUnknownAsWritten | pygly2/structure/monosaccharide.py:561-562 | as written, `drop_modification` and `add_modification` at `x` raise IndexError on every residue; on numbered positions the written drop agrees with the corrected one for every modification with a rule |
| Monosaccharides.UnknownModificationRoundTrip | pygly2/structure/monosaccharide.py:496-575 | with the intended bound, a modification can be added at `x` and dropped there again, which gives back the modification items and every composition |
| Monosaccharides.NewSubstituent | pygly2/structure/monosaccharide.py:620-621 | a substituent created from its name gets a fresh handle and the composition of that name, and nothing else changes |
| Monosaccharides.NewLinkSettled | pygly2/structure/monosaccharide.py:622-624 | a freshly stored link can be applied and broken again without loss, since its handle is filed nowhere yet |
| Monosaccharides.AddSubstituent | pygly2/structure/monosaccharide.py:614-625 | with the corrected `is_occupied`, `add_substituent` raises IndexError for a position out of range and ValueError exactly when the site holds more than `max_occupancy` |
| Monosaccharides.AddSubstituentOccupancy | pygly2/structure/monosaccharide.py:614-625 | a new substituent adds one occupant at its position and nowhere else |
| Monosaccharides.AddSubstituentComposition | pygly2/structure/monosaccharide.py:616-624 | the parent loses `parent_loss` (H by default), the new substituent starts from its own composition less `child_loss` (H by default), and no other composition changes |
| Monosaccharides.FindSubstituentLink | pygly2/structure/monosaccharide.py:662-665 | the loop picks the first link at the position whose child is named like the substituent (any link when none is given), or reports that none is |
| Monosaccharides.DropSubstituent | pygly2/structure/monosaccharide.py:657-676 | with the corrected bound of the Findings, `drop_substituent` fails exactly for a position out of range or when no matching link is found, and otherwise breaks the first matching link |
| Monosaccharides.DropSoleSubstituent | pygly2/structure/monosaccharide.py:657-676 | with one matching substituent at a position, dropping it breaks exactly that link |
| Monosaccharides.DropSubstituentUnknownAsWritten | pygly2/structure/monosaccharide.py:657-658 | as written, `drop_substituent` at `x` raises IndexError on every residue; on numbered positions it agrees with the corrected one |
| Monosaccharides.DropSubstituentAtUnknown | pygly2/structure/monosaccharide.py:657-676 | as intended, a substituent filed at `x` is dropped there by name, where the written one raises |
| Monosaccharides.AttachThenBreakSubstituentTable | pygly2/structure/monosaccharide.py:622-675 | linking a new substituent and breaking that link gives back every position table |
| Monosaccharides.AttachThenBreakSubstituentComposition | pygly2/structure/monosaccharide.py:622-675 | linking a new substituent and breaking that link gives back every composition, and the substituent its own |
| Monosaccharides.AddThenDropSubstituent | pygly2/structure/monosaccharide.py:577-676 | adding a substituent to an empty position and dropping it by name gives back the residues, every position list and every composition |
| Monosaccharides.AddMonosaccharide | pygly2/structure/monosaccharide.py:713-724 | with the corrected `is_occupied`, `add_monosaccharide` succeeds exactly when both the parent site and the child site are in range and hold no more than `max_occupancy`, and reports which check failed |
| Monosaccharides.AddMonosaccharideOccupancy | pygly2/structure/monosaccharide.py:713-724 | the new bond adds one occupant at the parent position of the parent and at the child position of the child |
| Monosaccharides.AddMonosaccharideComposition | pygly2/structure/monosaccharide.py:713-724 | the parent loses `parent_loss` (H by default), the child loses `child_loss` (H and O by default), and no other composition changes |
| Monosaccharides.DropMonosaccharide | pygly2/structure/monosaccharide.py:752-765 | with the corrected bound of the Findings, `drop_monosaccharide` succeeds exactly when the position is in range and holds one bond, and then breaks that bond |
| Monosaccharides.AddThenDropMonosaccharide | pygly2/structure/monosaccharide.py:678-765 | adding a residue at a free position and dropping it again gives back the residues, every position list and every composition |
| Monosaccharides.DropMonosaccharideRefund | pygly2/structure/monosaccharide.py:752-765 | re-applying the bond `drop_monosaccharide` broke gives back the graph it started from |
| Monosaccharides.DropMonosaccharideUnknownAsWritten | pygly2/structure/monosaccharide.py:752-753 | as written, `drop_monosaccharide` at `x` raises IndexError on every residue; on numbered positions it agrees with the corrected one |
| Monosaccharides.DropMonosaccharideAtUnknown | pygly2/structure/monosaccharide.py:752-765 | as intended, the one bond filed at `x` is broken there, where the written one raises |
| Monosaccharides.ReducedEndIsOccupied | pygly2/structure/monosaccharide.py:1108-1125 | a reducing end reports an unbounded occupancy exactly above its valence, and otherwise the number of links at the position |
| Monosaccharides.ReducedEndAddSubstituent | pygly2/structure/monosaccharide.py:1127-1169 | `ReducedEnd.add_substituent` raises ValueError exactly when the site is above the valence or holds more than `max_occupancy` |
| Monosaccharides.ReducedEndAddOccupancy | pygly2/structure/monosaccharide.py:1127-1169 | a substituent added to a reducing end adds one occupant at its position |
| Monosaccharides.ReducedEndDropSubstituent | pygly2/structure/monosaccharide.py:1171-1220 | `ReducedEnd.drop_substituent` fails exactly above the valence or when no matching substituent is at the position |
| Monosaccharides.ReducedEndDropUnnamed | pygly2/structure/monosaccharide.py:1206-1209 | as written, dropping with no substituent named raises AttributeError (`None.name` is read before the `None` test) whenever a link exists; corrected, the first link is broken |
| Monosaccharides.ReducedEndDropNamedAgrees | pygly2/structure/monosaccharide.py:1206-1209 | with a substituent named, the written and the corrected loops agree |
| Monosaccharides.RingType | pygly2/structure/monosaccharide.py:317-338 | the ring type is pyranose or furanose by ring width, open when the ring closes on itself, and unknown exactly when an end is unknown or the width is anything else |
| ResidueQueries.ChildrenOfMembers | pygly2/structure/monosaccharide.py:1047-1055 | `children()` yields `(position, child)` for exactly the links at a position whose child is not the residue itself |
| ResidueQueries.ChildrenParentsPartition | pygly2/structure/monosaccharide.py:1047-1065 | every link incident to a residue is yielded by exactly one of `children()` and `parents()` |
| ResidueQueries.NeighboursFrame | pygly2/structure/monosaccharide.py:1047-1065 | children, parents and far ends depend only on the links the residue's table files |
| ResidueQueries.OrderCountsLinks | pygly2/structure/monosaccharide.py:1075-1088 | `order(False)` plus the number of parents is the number of links filed at the residue |
| ResidueQueries.OrderCountsSubstituents | pygly2/structure/monosaccharide.py:1075-1088 | `order(True)` counts the substituent links on top of the children |
| ResidueQueries.AddMonosaccharideOrder | pygly2/structure/monosaccharide.py:1075-1088 | adding a child residue raises the parent's order by one |
| ResidueQueries.AddMonosaccharideParents | pygly2/structure/monosaccharide.py:1057-1065 | adding a child residue gives the child one more parent and leaves its children alone |
| ResidueQueries.AddSubstituentOrder | pygly2/structure/monosaccharide.py:1075-1088 | adding a substituent leaves children, parents and `order(False)` alone and raises `order(True)` by one |
| ResidueQueries.AddSubstituentSubstituents | pygly2/structure/monosaccharide.py:1067-1073 | adding a substituent inserts exactly that `(position, substituent)` pair into `substituents()` |
| ResidueQueries.AddSubstituentTables | pygly2/structure/monosaccharide.py:614-625 | adding a substituent changes no table but the residue's substituent table and the new substituent's own |
| ResidueQueries.AddSubstituentReducedEnd | pygly2/structure/monosaccharide.py:1282-1294 | adding a substituent to a residue leaves the total composition of its reducing end alone |
| ResidueQueries.AddSubstituentTotal | pygly2/structure/monosaccharide.py:1030-1045 | after `add_substituent`, `total_composition()` is the old total plus the substituent, less the parent and the child loss |
| OpenSites.ModPlacements | pygly2/structure/monosaccharide.py:439-442 | each modification is placed at its position, with `keto` marked so that it is not counted |
| OpenSites.LinkPlacements | pygly2/structure/monosaccharide.py:439-442 | each glycosidic or substituent link is placed at its position and counted |
| OpenSites.PyIndex | pygly2/structure/monosaccharide.py:447 | `slots[pos - 1]` reaches a slot exactly for indices from `-len` to `len - 1`, a negative one counting from the end |
| OpenSites.Tally | pygly2/structure/monosaccharide.py:437-447 | the first loop fills a fresh slot array of the backbone's size with the slot counts and counts the unknown positions, and reports when a position would index out of the list |
| OpenSites.ListOpen | pygly2/structure/monosaccharide.py:449-455 | the second loop lists exactly the open slots `OpenUpTo` describes |
| OpenSites.OpenAttachmentSites | pygly2/structure/monosaccharide.py:409-460 | `open_attachment_sites` returns the open positions and the number of unknown placements that the corrected `OpenSites` of the Findings row for :457-458 gives, or the error for an unknown backbone size or a position outside the slot list; where the source pops from an empty list it returns no open site |
| OpenSites.OpenUpToHidden | pygly2/structure/monosaccharide.py:450-455 | when positions cannot be determined, as many `-1` entries are listed as there are open slots |
| OpenSites.OpenUpToAscending | pygly2/structure/monosaccharide.py:451-455 | known open positions lie on the backbone and are listed in ascending order |
| OpenSites.OpenUpToMembers | pygly2/structure/monosaccharide.py:451-455 | a position is listed exactly when its slot holds no more than `max_occupancy` and it is not the ring end |
| OpenSites.PopFromEmptyExample | pygly2/structure/monosaccharide.py:457-458 | as written, a triose with all three carbons occupied with an unknown ring end pops from an empty list; corrected, no site is open |
| OpenSites.OpenSitesCorrected | pygly2/structure/monosaccharide.py:409-460 | the corrected operation fails only when the backbone size is unknown or a position misses the slot list, agrees with the written one wherever that does not pop from an empty list, and otherwise returns no open site |
| OpenSites.PlacementsCount | pygly2/structure/monosaccharide.py:439-447 | the occupants the first loop counts at a position are the occupants `is_occupied` counts there |
| OpenSites.OpenSitesAgreeWithIsOccupied | pygly2/structure/monosaccharide.py:409-494 | with every placement known, a position is open exactly when `is_occupied` accepts it under `max_occupancy` and it is not the ring end |
| Equality.FlatEqReflexive | pygly2/structure/monosaccharide.py:844-862 | `_flat_equality` holds between a residue and itself, with or without the length checks |
| Equality.FlatEqLengths | pygly2/structure/monosaccharide.py:857-861 | flat equality with lengths implies flat equality without them and equal total compositions |
| Equality.ExactEqReflexive | pygly2/structure/monosaccharide.py:864-888 | `exact_ordering_equality` holds between a residue and itself, at every recursion depth |
| Equality.ExactEqIsFlat | pygly2/structure/monosaccharide.py:874-888 | residues that are equal in exact order are flat-equal and have the same total composition |
| Equality.TopoEqReflexive | pygly2/structure/monosaccharide.py:890-919 | with substituents matched by the corrected per-index claims of the Findings row for :933-937, `topological_equality` holds between a residue and itself when no two children share a position and id |
| Equality.ClaimChild | pygly2/structure/monosaccharide.py:904-911 | each child of `self` claims a child of `other` not yet taken, the first one that matches |
| Equality.KeySetSize | pygly2/structure/monosaccharide.py:907-917 | children with distinct `(position, id)` keys fill `taken_b` with exactly one key each |
| Equality.ClaimByPosition | pygly2/structure/monosaccharide.py:931-936 | as written, `_match_substituents` claims a substituent of `other` whose position is not yet taken |
| Equality.MatchSubstituentsFailsOnSharedPosition | pygly2/structure/monosaccharide.py:921-943 | as written, `_match_substituents` is false whenever `other` carries two substituents at one position, because claims are recorded by position |
| Equality.ClaimByIndex | pygly2/structure/monosaccharide.py:931-936 | the corrected matcher claims a substituent of `other` whose index is not yet taken |
| Equality.MatchSubstituentsReflexive | pygly2/structure/monosaccharide.py:921-943 | with claims recorded by index, every residue's substituents match its own |
| Equality.PairsAsWrittenShape | pygly2/structure/monosaccharide.py:1313-1318 | the `izip_longest` loop raises exactly when the link lists differ in length after an agreeing common prefix, and otherwise answers whether they have equal length and agree pair by pair |
| Equality.ReducedEndEqAsWrittenRaises | pygly2/structure/monosaccharide.py:1300-1320 | as written, `ReducedEnd.__eq__` raises exactly when the compositions agree and one link list is a longer agreeing extension of the other; whenever it answers, it answers like the corrected comparison |
| Equality.ReducedEndEqRaisesOnExtraLink | pygly2/structure/monosaccharide.py:1315-1317 | comparing a bare reducing end with one carrying a link raises as written, while the corrected comparison says they differ |
| Equality.ReducedEndEqReflexive | pygly2/structure/monosaccharide.py:1300-1320 | the corrected `ReducedEnd.__eq__` holds between a reducing end and itself |
| Traversals.ResidueEnds | pygly2/structure/glycan.py:359-360 | the terminals of a link that a traversal may push are residues of the graph |
| Traversals.EndsOf | pygly2/structure/glycan.py:359-360 | all terminals gathered from a residue's links are residues of the graph |
| Traversals.InsertByPermutes | pygly2/structure/glycan.py:359-360 | inserting into the sorted neighbour list keeps every element and adds exactly the one inserted |
| Traversals.SortBySorted | pygly2/structure/glycan.py:359-360 | `sorted(..., key=order)` returns the neighbours ascending by order, as a permutation of its input |
| Traversals.Unseen | pygly2/structure/glycan.py:359-360 | only neighbours whose id is not yet visited are pushed |
| Traversals.VisitShrinks | pygly2/structure/glycan.py:353-355 | visiting a node whose id was not yet visited shrinks the set of unvisited ids, so the walk ends |
| Traversals.WalkFresh | pygly2/structure/glycan.py:351-360 | a traversal yields each id at most once and none that was visited before it started |
| Traversals.WalkCovers | pygly2/structure/glycan.py:351-360 | every node a traversal starts from and every neighbour of a node it yields is visited by the end |
| Traversals.DepthFirstExpandsHighest | pygly2/structure/glycan.py:353-360 | depth first, the node on top of the stack is yielded first and the neighbour of highest order is expanded next |
| Traversals.FirstVisitsOnce | pygly2/structure/glycan.py:484-487 | the `links_visited` filter yields each link id at most once and accounts for every link it skipped |
| Traversals.IterLinksOnce | pygly2/structure/glycan.py:459-491 | `iterlinks` yields every link at most once, and every link stored at a traversed node is yielded |
| Traversals.IterLinksWithin | pygly2/structure/glycan.py:459-491 | `iterlinks` yields only links the graph stores |
| BranchLabels.ChildLinks | pygly2/structure/glycan.py:544-548 | the links collected for a node are links of the graph in which the node is not the child |
| BranchLabels.ChildLinksOf | pygly2/structure/glycan.py:544-548 | the collecting loop returns exactly those child links, in table order |
| BranchLabels.NextLetterFresh | pygly2/structure/glycan.py:559-560 | the next branch letter is `a` after the main branch and otherwise the successor of the last one, and is never already in use |
| BranchLabels.AllocateLabels | pygly2/structure/glycan.py:556-565 | each child link of a branching node gets a fresh letter and the depth of the parent branch plus one |
| BranchLabels.AllocateIncreasing | pygly2/structure/glycan.py:558-565 | child links of one branching node get strictly increasing letters, in the order they are met |
| BranchLabels.AllocateKeeps | pygly2/structure/glycan.py:556-565 | allocation keeps every bond, keeps the old branch lengths and gives exactly the new letters the new depth |
| BranchLabels.LabelNodeSingle | pygly2/structure/glycan.py:549-554 | a node with one child link extends its parent link's branch: the counter goes up by one and the link is labelled with the key and the new count |
| BranchLabels.LabelNodeSeveral | pygly2/structure/glycan.py:555-565 | a node with several child links (or none) gives them fresh, increasing letters of depth parent count plus one |
| BranchLabels.LabelNodeKeeps | pygly2/structure/glycan.py:543-565 | labelling a node changes only labels and never lowers a branch length |
| BranchLabels.LabelAllKeeps | pygly2/structure/glycan.py:543-565 | labelling all nodes changes only labels and never lowers a branch length |
| BranchLabels.MaxValue | pygly2/structure/glycan.py:566 | `max(branch_lengths.values())` is a stored length that bounds all of them |
| Glycans.Glycan.constructor | pygly2/structure/glycan.py:180-195 | `Glycan(root, index_method=None)` holds the graph and root with an empty index, link index and branch-length table |
| Glycans.Glycan.DepthFirstTraversal | pygly2/structure/glycan.py:350-360 | the stack loop yields exactly the depth-first walk `Traverse` describes |
| Glycans.Glycan.BreadthFirstTraversal | pygly2/structure/glycan.py:395-404 | the queue loop yields exactly the breadth-first walk `Traverse` describes |
| Glycans.Glycan.IterLinks | pygly2/structure/glycan.py:459-491 | `iterlinks` yields exactly `IterLinksOf` over the depth-first order from the root |
| Glycans.Glycan.IterLinksFrom | pygly2/structure/glycan.py:477-491 | the nested loops over the nodes and their link tables yield `IterLinksOf` over the traversal from any node |
| Glycans.Glycan.Order | pygly2/structure/glycan.py:582-593 | `order()` counts the traversed nodes, which is the number of distinct residue ids reached |
| Glycans.Glycan.CountBranches | pygly2/structure/glycan.py:568-580 | `count_branches()` is 0 without a branch point and otherwise the number of branch points plus one |
| Glycans.Glycan.Get | pygly2/structure/glycan.py:267-273 | `get(ix)` returns a traversed node whose id is `ix`, and raises IndexError exactly when no traversed node has that id |
| Glycans.Glycan.LabelBranches | pygly2/structure/glycan.py:525-566 | `label_branches` changes only link labels and the branch lengths, fails exactly when the label specification fails, and otherwise labels as `LabelAll` does and sets `-` to the longest branch |
| Glycans.Glycan.LabelNodeStep | pygly2/structure/glycan.py:543-565 | labelling one node in place agrees with `LabelNode` and keeps the main branch's entry |
| Glycans.Glycan.AllocateLetters | pygly2/structure/glycan.py:556-565 | the letter-allocation loop agrees with `Allocate` |
| Glycans.Glycan.Reindex | pygly2/structure/glycan.py:197-231 | `reindex` stores the traversal order as `index` and the `iterlinks` order as `link_index`, numbers them 1..N and 1..M, leaves untraversed objects alone, and relabels the branches |
| Glycans.Glycan.RenumberResidues | pygly2/structure/glycan.py:213-215 | the loop gives the i-th node of the index the id `i + 1` and changes nothing else |
| Glycans.Glycan.RenumberLinks | pygly2/structure/glycan.py:221-224 | the loop gives the i-th link of the link index the id `i + 1` and changes nothing else |
| Glycans.Glycan.SideOf | pygly2/structure/glycan.py:874-875 | the nodes of the subtree on one side of a broken link are those `Side` describes |
| Glycans.Glycan.LinksOfSide | pygly2/structure/glycan.py:865 | the links `iterlinks` yields for a subtree are those `LinksFrom` describes |
| Glycans.Glycan.BreakLinks | pygly2/structure/glycan.py:819-1004 | `break_links` yields the fragments `BreakLinksOf` describes and leaves the graph it describes, and touches nothing else of the glycan |
| Glycans.Glycan.BreakOneLink | pygly2/structure/glycan.py:866-1004 | the body of the loop for one link yields and leaves what `BreakOne` describes |
| Glycans.Glycan.BreakLinksSubtrees | pygly2/structure/glycan.py:1037-1073 | `break_links_subtrees` yields the splits `SubtreesOf` describes and leaves the graph it describes |
| Glycans.Glycan.SubtreesOneLink | pygly2/structure/glycan.py:1042-1073 | the body of the loop for one link yields and leaves what `SubtreesOne` describes |
| Glycans.Glycan.Fragments | pygly2/structure/glycan.py:766-817 | `fragments` returns the named fragments `FragmentsOf` describes, with the intended rounds and naming of the Findings rows for glycan.py:810-811 and :1121; in place it leaves the graph as the enumeration does, and otherwise the glycan is not changed |
| Glycans.Glycan.BreakRounds | pygly2/structure/glycan.py:809-811 | the rounds from `min_cleavages` to `max_cleavages`, each asking for every requested ion type as intended (Findings row for glycan.py:810-811), yield and leave what `Rounds` describes |
| Glycans.Glycan.NameAll | pygly2/structure/glycan.py:812-816 | every fragment is named by the corrected `name_fragment` (Findings row for glycan.py:1121), or by its own text when naming raises |
| Glycans.Glycan.NameFragment | pygly2/structure/glycan.py:1075-1130 | the naming loops give the corrected naming `NameFragmentOf`: the cross-ring parts, then one part per glycosidically broken link in the iteration order of `break_targets`, each B/C ion named after its own link; for a single cleavage it agrees with the written naming (`FragmentNames.NameSingle`) |
| Glycans.Glycan.ChildLink | pygly2/structure/glycan.py:1097-1099 | the search over `link_index` finds the first link whose child has the given id, or none |
| Glycans.LinkHandles | pygly2/structure/glycan.py:217-219 | the loop collects the link of each pair `iterlinks` yields |
| Glycans.ExtendFragments | pygly2/structure/glycan.py:886-896 | extending inner fragments by each requested letter gives `ExtendedAll` |
| Glycans.ExtendByIon | pygly2/structure/glycan.py:889-891 | each inner fragment gains the letter, the broken link's id and the letter's shift |
| Glycans.AppendBreak | pygly2/structure/glycan.py:1062-1069 | every inner split gains the broken link's id at the end |
| Glycans.LeafFragments | pygly2/structure/glycan.py:944-956 | at the last cleavage each requested letter yields one fragment holding that side's ids and its composition less the letter's shift |
| Glycans.RenumberedAt | pygly2/structure/glycan.py:213-224 | renumbering gives each listed object its place plus one as id and leaves every other object as it was |
| Glycans.OnceHandles | pygly2/structure/glycan.py:217-224 | the links of `link_index` are stored links, each listed once, so the ids 1..M go to distinct links |
| Glycans.FreshHandles | pygly2/structure/glycan.py:209-215 | the nodes of `index` are residues, each listed once |
| Fragments.SidesHaveDirections | pygly2/structure/glycan.py:19-33 | the letters chosen for the parent side have direction +1 and those for the child side direction -1, and all have an entry in `fragment_shift` |
| Fragments.ComplementaryShifts | pygly2/structure/glycan.py:19-24 | the shifts of B and Y, and of C and Z, add up to one water |
| Fragments.SidesChosen | pygly2/structure/glycan.py:886-895 | the parent side yields only requested letters among Y and Z and the child side only requested letters among B and C |
| Fragments.IdList | pygly2/structure/glycan.py:874-876 | the included-node list has one id per node on that side |
| Fragments.Leaves | pygly2/structure/glycan.py:944-956 | at the last cleavage every requested letter gives one fragment with that letter, `[break_id]`, the side's node ids and the side's composition less the letter's shift |
| Fragments.Extended | pygly2/structure/glycan.py:886-896 | an inner fragment is extended by the outer letter and `break_id`, its composition less the letter's shift |
| Fragments.BreakLinksOf | pygly2/structure/glycan.py:819-1004 | the enumeration leaves every link record as it found it: each detached link is applied again in the `finally` block |
| Fragments.BreakEach | pygly2/structure/glycan.py:865-1004 | the loop over the links leaves every link record as it found it |
| Fragments.BreakOne | pygly2/structure/glycan.py:866-1004 | the body for one link leaves every link record as it found it |
| Fragments.BreakLinksRestores | pygly2/structure/glycan.py:1000-1004 | when every attached link is alone at its positions, `break_links` gives back the graph exactly, tables and compositions included |
| Fragments.BreakEachRestores | pygly2/structure/glycan.py:865-1004 | the loop over the links gives back the graph exactly |
| Fragments.BreakOneRestores | pygly2/structure/glycan.py:871-1004 | breaking, recursing and re-applying one link gives back the graph exactly |
| Fragments.BreakableAfterBreak | pygly2/structure/glycan.py:866-871 | breaking a link removes it from the breakable links and, with distinct ids, removes its id too |
| Fragments.BreakLinksShaped | pygly2/structure/glycan.py:819-1004 | every fragment of `break_links(n)` has `n + 1` letters and link ids, letters requested and in BCYZ, ids of breakable links, and distinct ids when link ids are distinct |
| Fragments.LeavesShaped | pygly2/structure/glycan.py:944-956 | the fragments of the last cleavage have one requested letter and the broken link's id |
| Fragments.ExtendedAllShaped | pygly2/structure/glycan.py:886-896 | extending keeps letters requested and ids breakable and adds one of each |
| Fragments.ExtendedAllDistinct | pygly2/structure/glycan.py:886-896 | extending by a link not yet broken keeps the link ids distinct |
| Fragments.SingleCleavageCount | pygly2/structure/glycan.py:940-956 | with one cleavage, each breakable link gives one fragment per requested parent-side and child-side letter |
| Fragments.SingleBreakCount | pygly2/structure/glycan.py:866-956 | one link gives that many fragments exactly when it is attached and unvisited, and none otherwise |
| Fragments.WithBreak | pygly2/structure/glycan.py:1062-1069 | every inner split gains `break_id` at the end of its link ids |
| Fragments.SubtreesOf | pygly2/structure/glycan.py:1037-1073 | `break_links_subtrees` keeps the set of links |
| Fragments.SubtreesEach | pygly2/structure/glycan.py:1041-1073 | the loop over the links keeps the set of links |
| Fragments.SubtreesOne | pygly2/structure/glycan.py:1042-1073 | the body for one link keeps the set of links |
| Fragments.LinksFromAttached | pygly2/structure/glycan.py:1041 | in a graph where every link is filed where it belongs, the links `iterlinks` yields are attached |
| Fragments.SubtreesShaped | pygly2/structure/glycan.py:1037-1073 | each split has between one and `n + 1` link ids, one side larger than `min_size`, and include lists as long as the orders |
| Fragments.SubtreesRestore | pygly2/structure/glycan.py:1070-1073 | `break_links_subtrees` gives back the graph exactly |
| Fragments.SubtreesEachRestore | pygly2/structure/glycan.py:1041-1073 | the loop over the links gives back the graph exactly |
| Fragments.SubtreesOneRestore | pygly2/structure/glycan.py:1042-1073 | breaking, recursing and re-applying one link gives back the graph exactly |
| FragmentNames.DigitRun | pygly2/structure/glycan.py:1083 | `\d+` takes the longest run of digits from a place |
| FragmentNames.MatchAt | pygly2/structure/glycan.py:1083 | one match of `(\d+,\d+)?(\S)` consumes at least one character and ends with a non-space ion letter |
| FragmentNames.PlainKinds | pygly2/structure/glycan.py:1083 | a kind string of letters alone splits into one glycosidic ion type per letter |
| FragmentNames.CrossringKind | pygly2/structure/glycan.py:1083 | `1,3A` is one cross-ring ion type and `0,2XY` a cross-ring one followed by a glycosidic one |
| FragmentNames.CoordinatesBacktrack | pygly2/structure/glycan.py:1083 | the regex backtracks: `12,34` gives coordinates `12,3` and ion letter `4` |
| FragmentNames.WithoutDashes | pygly2/structure/glycan.py:1118 | `label.replace('-', '')` leaves no dash |
| FragmentNames.PyIndex | pygly2/structure/glycan.py:1116 | `link_index[break_id - 1]` reaches a link exactly for indices from `-len` to `len - 1` |
| FragmentNames.FirstChildLink | pygly2/structure/glycan.py:1097-1099 | the cross-ring search finds a link of `link_index` whose child has the given id |
| FragmentNames.Zip | pygly2/structure/glycan.py:1086 | `zip` pairs elements up to the shorter length |
| FragmentNames.Glycosidic | pygly2/structure/glycan.py:1088 | `break_targets` keeps only the pairs without ring coordinates |
| FragmentNames.Crossring | pygly2/structure/glycan.py:1089 | `crossring_targets` keeps only the pairs with ring coordinates |
| FragmentNames.Assign | pygly2/structure/glycan.py:1088-1089 | storing an id in a dict kept in ascending id keeps it ascending, replaces the entry of an id already present and keeps every other entry |
| FragmentNames.TargetsIsDict | pygly2/structure/glycan.py:1088-1089 | the dict comprehension holds exactly the last pair given each id, in ascending id, as CPython 2 iterates ids below 8 |
| FragmentNames.GlycosidicPairs | pygly2/structure/glycan.py:1083-1089 | a fragment of glycosidic letters pairs each letter with its link id and has no cross-ring part |
| FragmentNames.NameGlycosidic | pygly2/structure/glycan.py:1088-1130 | a glycosidic fragment is named by joining with `-` the parts of its `break_targets` dict, one per broken link in ascending id |
| FragmentNames.NameExtends | pygly2/structure/glycan.py:1088-1130 | corrected, cutting a fragment once more at a link whose id is above all its link ids appends `-` and that link's own part to its name |
| FragmentNames.NamePrepends | pygly2/structure/glycan.py:1088-1130 | corrected, cutting a fragment once more at a link whose id is below all its link ids puts that link's own part and `-` before its name |
| FragmentNames.PartsLength | pygly2/structure/glycan.py:1112-1128 | there is one name part per pair |
| FragmentNames.NameSingle | pygly2/structure/glycan.py:1112-1130 | for a single cleavage the written and the corrected naming agree and give the one part |
| FragmentNames.ChainLabels | pygly2/structure/glycan.py:543-565 | on a chain of three residues, the node steps of `label_branches` label its links `-1` and `-2` and leave `branch_lengths` at `{'-': 2}` |
| FragmentNames.ChainInverted | pygly2/structure/glycan.py:1120-1128 | for a B ion the distance is inverted against the main branch's length 2: `-1` gives `B2` and `-2` gives `B1` |
| FragmentNames.ChainBreakNames | pygly2/structure/glycan.py:1112-1128 | in that chain, Y at link 2 is `Y2`, B at link 1 is `B2`, and B at link 1 read through link 2 is `B1` |
| FragmentNames.NameAsWrittenMisnames | pygly2/structure/glycan.py:1121 | as written, the fragment `YB` with link ids `[2, 1]` is named `B1-Y2`, since the B part comes first in the dict and reads `link_ids[0]`; corrected it is `B2-Y2` |
| FragmentNames.NameSameLinks | pygly2/structure/glycan.py:1075-1130 | a glycosidic name reads only the links, so two graphs with the same links name a fragment alike |
| FragmentSeries.NamedAll | pygly2/structure/glycan.py:812-816 | every fragment keeps its place and gets its name |
| FragmentSeries.Rounds | pygly2/structure/glycan.py:810-811 | the rounds of cleavages leave every link record as they found it |
| FragmentSeries.NamedAllConcat | pygly2/structure/glycan.py:810-816 | naming the fragments of consecutive rounds is naming each round |
| FragmentSeries.NamedAllSameLinks | pygly2/structure/glycan.py:812-816 | naming after the rounds gives the names naming during them would, since only links are read |
| FragmentSeries.RoundsRestore | pygly2/structure/glycan.py:810-811 | the rounds give back the graph exactly when every attached link is alone at its positions |
| FragmentSeries.FragmentsRestore | pygly2/structure/glycan.py:807-811 | fragmenting in place leaves such a graph as it was |
| FragmentSeries.RoundsShaped | pygly2/structure/glycan.py:810-811 | every fragment of the rounds has between `min_cleavages + 1` and `max_cleavages + 1` letters and is shaped |
| FragmentSeries.ShapedGlycosidic | pygly2/structure/glycan.py:812-814 | every shaped fragment is glycosidic, so `name_fragment` names it |
| FragmentSeries.SingleRoundCount | pygly2/structure/glycan.py:810-811 | a single round of one cleavage yields one fragment per breakable link and requested letter |
| FragmentSeries.LastIsChildSide | pygly2/structure/glycan.py:951-956 | with no further cleavage, the last fragment of the loop is a B or C ion |
| FragmentSeries.LastOfOne | pygly2/structure/glycan.py:951-956 | one link's last fragment is a B or C ion |
| FragmentSeries.FragmentsAsWrittenDropsY | pygly2/structure/glycan.py:810-811 | as written, rounds 0 and 1 with kinds B and Y yield 3 fragments per breakable link, because the loop rebinds `kind` to the last fragment's kind; corrected they yield 4 |
| FragmentSeries.RoundsOnIntactGlycan | pygly2/structure/glycan.py:810-811 | corrected, on a glycan whose links are alone at their positions, each round is the full `break_links(i, kind)` enumeration for every requested ion type |
| GlycoCTSyntax.Tokens | pygly2/io/glycoct.py:222-226 | the tokens are the non-empty pieces between whitespace and `;`, none containing a separator |
| GlycoCTSyntax.TokensConcat | pygly2/io/glycoct.py:221-226 | splitting a text that ends in a separator and then more text gives the tokens of each part in order |
| GlycoCTSyntax.ReadTokensIsTokens | pygly2/io/glycoct.py:220-226 | reading a stream line by line gives the tokens of the whole text when every line but the last ends in a newline |
| GlycoCTSyntax.TokensUnwords | pygly2/io/glycoct.py:220-226 | tokens joined by newlines are read back unchanged |
| GlycoCTSyntax.StripWord | pygly2/io/glycoct.py:361 | `strip()` leaves a token unchanged |
| GlycoCTSyntax.ShapesExclusive | pygly2/io/glycoct.py:395-405 | residue, substituent, repeat and linkage lines are four disjoint shapes |
| GlycoCTSyntax.ShapedLineStartsWithDigit | pygly2/io/glycoct.py:395-405 | every line of those shapes starts with a digit |
| GlycoCTSyntax.TryInt | pygly2/io/glycoct.py:175-179 | `try_int` gives an integer exactly when the text parses as one, and otherwise the text itself |
| GlycoCTSyntax.TryIntScalarText | pygly2/io/glycoct.py:175-179 | `try_int` of a value's text gives the value back |
| GlycoCTSyntax.DecodeResidueLine | pygly2/io/glycoct.py:254-299 | a residue line written from a description is a residue line and reads back as that description's anomer, stems, configurations, superclass, ring ends, modifications and reduced flag |
| GlycoCTSyntax.DecodeResidueLineAsWritten | pygly2/io/glycoct.py:254-299 | a residue line written from a description whose modification positions are all numbers reads back as that description through the decoder as written, whose modification pattern takes only `\d+` positions, and both decoders give the same record |
| GlycoCTSyntax.ResidueErrorAsWritten | pygly2/io/glycoct.py:262 | as written, a residue line that `res_pattern` does not match fails with an error that is not a `GlycoCTError`, exactly where the corrected reader reports one |
| GlycoCTSyntax.ResidueErrorCorrected | pygly2/io/glycoct.py:262 | corrected, every failure to interpret a residue line is the `GlycoCTError` "Could not interpret residue" |
| GlycoCTSyntax.EmptyResidueEscapes | pygly2/io/glycoct.py:261-262 | the line `1b` passes the dispatch test but `res_pattern.search` finds nothing, so `.groupdict()` is called on `None` |
| GlycoCTSyntax.PositionXFound | pygly2/io/glycoct.py:40 | `modification_pattern`'s `\d+` finds no modification in a bar followed by `x:d`, which the residue pattern admits |
| GlycoCTSyntax.PositionXDroppedAsWritten | pygly2/io/glycoct.py:33-40 | as written, a residue whose one modification sits at position `x` reads back with no modification; corrected it keeps it |
| GlycoCTSyntax.DecodeSubstituent | pygly2/io/glycoct.py:311 | a substituent line's index is a non-empty run of digits |
| GlycoCTSyntax.DecodeSubstituentLine | pygly2/io/glycoct.py:301-318 | a substituent line written from an index and a name reads back as that index and name |
| GlycoCTLinks.Separator | pygly2/io/glycoct.py:46-47 | the `[\+\-]` between the two positions splits the bracket into two position texts |
| GlycoCTLinks.FirstAlternative | pygly2/io/glycoct.py:72 | taking the text before the first bar gives the longest prefix without a bar |
| GlycoCTLinks.IntToStringPosition | pygly2/io/glycoct.py:46 | every integer's text is a position text |
| GlycoCTLinks.FirstAlternativeOf | pygly2/io/glycoct.py:72 | the first alternative of a text followed by a bar is that text |
| GlycoCTLinks.AlternativesFacts | pygly2/io/glycoct.py:72 | positions joined by bars are a position text whose first alternative is the first position |
| GlycoCTLinks.SeparatorOf | pygly2/io/glycoct.py:46-47 | the separator found in `p+q` is the one right after `p` |
| GlycoCTLinks.MatchPositionsOf | pygly2/io/glycoct.py:46-47 | the bracket `(p+q)` matches with `p` and `q` as the two positions |
| GlycoCTLinks.MatchNodeOf | pygly2/io/glycoct.py:45-49 | a residue index followed by an atom code matches as that index and code |
| GlycoCTLinks.MatchLinkText | pygly2/io/glycoct.py:42-50 | a linkage text matches `link_pattern` with each of its fields |
| GlycoCTLinks.ParseLinkText | pygly2/io/glycoct.py:60-80 | `parse_link` of a linkage text gives its id, indices and atom codes, and the first alternative of each position as an integer, or the error of the position that is not one |
| GlycoCTLinks.ParseLinkLine | pygly2/io/glycoct.py:60-80 | a linkage line written from a description reads back as that description |
| GlycoCTLinks.ParseLinkErrors | pygly2/io/glycoct.py:60-80 | `parse_link` raises `GlycoCTError` exactly when the pattern finds no match, and otherwise fails only on a position that is not an integer |
| GlycoCTLinks.DashPositionRaises | pygly2/io/glycoct.py:72 | the line `1:1o(-+1)2d` matches, but its parent position `-` is not an integer |
| GlycoCTLinks.DashIsNotAnInteger | pygly2/io/glycoct.py:72 | `int("-")` fails |
| GlycoCTLinks.LinkLineShape | pygly2/io/glycoct.py:405 | a written linkage line has the linkage shape the dispatch tests for |
| GlycoCT.DigitTokenIsNoKeyword | pygly2/io/glycoct.py:361-393 | a token starting with a digit is none of the section keywords |
| GlycoCT.LinkageHeader | pygly2/io/glycoct.py:368-371 | `LIN` fails with "LIN before RES" exactly outside the residue section, and otherwise only enters the linkage section |
| GlycoCT.UnsupportedHeaders | pygly2/io/glycoct.py:373-393 | `REP`, `ALT` and `UND` raise `GlycoCTSectionUnsupported`, a `GlycoCTError` |
| GlycoCT.ShapedLines | pygly2/io/glycoct.py:395-409 | residue and substituent lines are handled only in the residue section, repeat lines there raise, linkage lines are handled only in the linkage section, and every other case is an unknown format error |
| GlycoCT.UnknownToken | pygly2/io/glycoct.py:408-409 | a token of no known shape is an unknown format error |
| GlycoCT.FirstResidueIsFirst | pygly2/io/glycoct.py:297-299 | the root is the first residue read, and there is none when no residue was read |
| GlycoCT.StepCoherent | pygly2/io/glycoct.py:359-409 | every step keeps the reader's tables consistent: indices map to nodes read, links join nodes read, the root is the first residue |
| GlycoCT.StepYields | pygly2/io/glycoct.py:361-367 | a step yields a glycan exactly when it reads `RES` with a root already set |
| GlycoCT.ConsumeCoherent | pygly2/io/glycoct.py:359-409 | reading any tokens keeps the tables consistent and only adds glycans |
| GlycoCT.ParseDocuments | pygly2/io/glycoct.py:355-411 | a stream read without error yields at least one glycan, every glycan links nodes it read, and every glycan but the final one has a root |
| GlycoCT.EmptyStream | pygly2/io/glycoct.py:410-411 | a stream with no tokens still yields one glycan, with no root |
| GlycoCT.ResidueNodes | pygly2/io/glycoct.py:293-296 | with the corrected residue decoding of the Findings, each residue line puts the residue it describes in the graph |
| GlycoCT.ReadResidueLines | pygly2/io/glycoct.py:395-397 | in the residue section, residue lines written from descriptions load those residues in order, read with the corrected residue decoding of the Findings |
| GlycoCT.ReadLinkLines | pygly2/io/glycoct.py:405-407 | in the linkage section, linkage lines between loaded residues add those links in order |
| GlycoCT.GraphAfterPlaces | pygly2/io/glycoct.py:293-295 | with distinct indices, each residue's index maps to the node read for it |
| GlycoCT.ReadDocumentTokens | pygly2/io/glycoct.py:355-409 | with the corrected residue decoding, a written document read after a previous one yields the previous glycan and leaves the reader holding the written one |
| GlycoCT.ReadOneDocument | pygly2/io/glycoct.py:355-411 | with the corrected residue decoding, one written document reads back as exactly one glycan, and no error |
| GlycoCT.ReadTwoDocuments | pygly2/io/glycoct.py:361-367 | with the corrected residue decoding, two written documents read back as exactly those two glycans, the first yielded at the second `RES` |
| GlycoCT.WrittenDocumentFacts | pygly2/io/glycoct.py:254-346 | with the corrected residue decoding, the glycan read from a written document has one node per residue, in order and as described, root the first residue, and one link per linkage line joining the residues it names |
| GlycoCT.ConsumeHalts | pygly2/io/glycoct.py:359-409 | an error stops the reading where it is raised |
| GlycoCT.GlycoCTReader.constructor | pygly2/io/glycoct.py:202-218 | a new reader holds the stream, no graph, no root, and is at the start |
| GlycoCT.GlycoCTReader.Reset | pygly2/io/glycoct.py:228-230 | `_reset` empties the graph and clears the root and nothing else |
| GlycoCT.GlycoCTReader.HandleResidueLine | pygly2/io/glycoct.py:254-299 | the reader's new state is what `GlycoCT.AddResidue` gives, with the corrected residue decoding of the Findings, and on an error the state is unchanged |
| GlycoCT.GlycoCTReader.HandleResidueSubstituent | pygly2/io/glycoct.py:301-318 | the reader's new state is the substituent step |
| GlycoCT.GlycoCTReader.HandleLinkage | pygly2/io/glycoct.py:320-346 | the reader's new state is the linkage step, and on an error the state is unchanged |
| GlycoCT.GlycoCTReader.Feed | pygly2/io/glycoct.py:360-409 | one token moves the reader as the dispatch step `GlycoCT.Step` does (its residue lines decoded as corrected), or reports its error |
| GlycoCT.GlycoCTReader.Parse | pygly2/io/glycoct.py:355-411 | `parse` yields the glycans and error that reading its tokens with `GlycoCT.Step` gives (residue lines decoded as corrected), and leaves the reader where reading stopped |
| GlycoCT.ReadAll | pygly2/io/glycoct.py:414-418 | `read` on a stream gives what parsing its lines gives, residue lines decoded as corrected |

## Left out

- Floating-point masses (`calculate_mass`, `mass()`, the average, charge and mass-data parameters): each fragment carries an integer composition instead, the subtree total less the ion type's `fragment_shift` entry.
- Cross-ring cleavages (`crossring_fragments`, `enumerate_cleavage_pairs`, glycan.py 958-993): the module that computes them is not part of this model. `break_links` models the glycosidic part only. `name_fragment` still names cross-ring ions, but no property of those names is proved.
- `Monosaccharide.release`, `toggle` and `graph_clone`: they only serve the cross-ring code. `clone` is a value copy of the arena into a fresh `Glycan`.
- `deindex` and the `uuid4` default ids: random. Ids are integers.
- `Composition` formula parsing, `format_constants_map` and `constants.py`: not part of this model. Compositions are records of ten element counts. The enum families are reconstructed from the GlycoCT condensed format.
- `format_constants_map` (`anomer_map`, `superclass_map`, `modification_map`, `link_replacement_composition_map`) is not part of this model. The reader keeps every code as its pattern matches it. So the KeyError these lookups raise for a code the table lacks (glycoct.py:71, 77, 268 and 288-289), such as superclass `FOO`, is not modelled: such a line is read.
- The `Monosaccharide`, `Substituent` and `Link` constructors: the last two live in files that are not part of this model. The reader stops at a decoded residue record with every field the constructor receives.
- `to_glycoct` (glycan and residue): it calls into the substituent and link writers, which are not part of this model. A residue, substituent or linkage line in the GlycoCT condensed format is written by `GlycoCTSyntax.ResidueLine`, `GlycoCTSyntax.SubstituentLine` and `GlycoCTLinks.LinkLine`. These serve only as the inputs of the reader's round-trip lemmas.
- Logging and `warnings.warn`: no effect on results. The ambiguity warning of `parse_link` is not flagged.
- Generator laziness: `parse`, the traversals, `iterlinks`, `break_links` and `fragments` produce whole sequences. `break_links` enumerates the links present when it starts, where the source iterates the live tables.
- Opening files and streams (`opener`, `StringIO`, `loads`): the reader takes the stream as a sequence of lines.
- `make_struct`, `ClassPropertyDescriptor`, the `EnumMeta.__setattr__` side effects and pickling: code generation, printing and serialisation.
- The unordered `MultiMap` class and keyword-argument construction of multimaps: the residue code uses only `OrderedMultiMap`.
- `REP`, `ALT` and `UND` section bodies and repeat stubs: the source raises on them. Only those errors are modelled.
- Building `Glycan` objects in `parse`: each yielded document is the reader's node list, index table, links and root.
- `fragment_to_substructure`, `Glycan.leaves`, `iternodes`, `substructures`, `reroot`, `Glycan.__eq__`, `topological_equality` and `total_composition` at the glycan level: outside the named core. Residue-level `exact_ordering_equality`, `topological_equality` and `total_composition` are modelled.
- Glycans.Glycan.DepthFirstTraversal: a popped node whose id was already visited is skipped. The source yields it again, which can only happen when the graph is not a tree.
- Glycans.Glycan.Reindex: only the default `method='dfs'` is modelled. `deindex` is not called first, so the traversal runs on the ids the residues carry; it visits what the source visits when those ids are distinct, as the fresh `uuid4` ids are.
- Set iteration order: `set(kind)` in `break_links` is iterated with Y before Z and B before C. CPython's hash order of one-character strings is not modelled.
- FragmentNames.Targets: the dicts `break_targets` and `crossring_targets` are iterated in ascending id. CPython 2 does so while every id is below 8, the smallest table size. For larger ids the hash-slot order, collisions included, is not modelled. `FragmentNames.NameWith`, `FragmentNames.NameFragmentOf`, `FragmentNames.NameFragmentAsWritten`, `Glycans.Glycan.NameFragment` and `Glycans.Glycan.NameAll` inherit this.
- FragmentNames.NameExtends: states where the new part goes only for a new id above every earlier one; `FragmentNames.NamePrepends` covers an id below every earlier one. An id in between is placed by its rank (`FragmentNames.Assign`), with no lemma of its own.
- Equality.ExactEq: the recursion over children carries a depth bound `fuel`, and subtrees below it are not compared. The source recurses without a bound and would not stop on a cycle.
- Equality.TopoEq: the same depth bound as `Equality.ExactEq`.
- Fragments.BreakLinksRestores: restoration of the whole graph, tables and compositions included, is proved only for graphs in which every attached link is alone at both its positions. Elsewhere re-applying appends, so the source itself rotates the order of several links at one position. The link records are restored unconditionally (`Fragments.BreakLinksOf`).
- Fragments.SubtreesRestore: the same condition as for `break_links`.
- Monosaccharides.AddModification: follows the corrected `is_occupied` (Findings row for monosaccharide.py:484) and the corrected rule lookup (row for structure_composition.py:41). So it succeeds at `x`, where the source raises IndexError, and it records a modification without a rule, where the source raises AttributeError. `Monosaccharides.AddModificationAsWritten` is the written operation, and `Monosaccharides.AddModificationAsWrittenAgrees` says where the two differ.
- Monosaccharides.RecordModification: takes a rule-less modification's delta to be empty, as the corrected rule lookup does; the source raises AttributeError there.
- Monosaccharides.DropModification: follows the corrected upper bound (Findings row for monosaccharide.py:561) and the corrected rule lookup. So it accepts `x` and unrecords a modification without a rule; the source raises IndexError and AttributeError there. `Monosaccharides.DropModificationAsWritten` is the written operation.
- Monosaccharides.DropModificationAsWritten: for a modification without a rule the source pops it before raising AttributeError; here an error carries no new state, so that pop is not modelled.
- Monosaccharides.UnrecordModification: uses the corrected rule lookup, like `Monosaccharides.RecordModification`.
- Monosaccharides.AddSubstituent: follows the corrected `is_occupied`, so it accepts `x`, where the source raises IndexError.
- Monosaccharides.DropSubstituent: follows the corrected upper bound (Findings row for monosaccharide.py:657), so it accepts `x`, where the source raises IndexError. `Monosaccharides.DropSubstituentAsWritten` is the written operation.
- Monosaccharides.AddMonosaccharide: follows the corrected `is_occupied` at both ends, so it accepts `x` at either site, where the source raises IndexError.
- Monosaccharides.DropMonosaccharide: follows the corrected upper bound (Findings row for monosaccharide.py:752), so it accepts `x`, where the source raises IndexError. `Monosaccharides.DropMonosaccharideAsWritten` is the written operation.
- Position `None`: `is_occupied(None)` passes the bound test and answers 0 through empty `defaultdict` lists. Positions here are numbers or `x`, so that case is not modelled.
- OpenSites.OpenAttachmentSites: returns the corrected `OpenSites` (Findings row for monosaccharide.py:457-458). Where the source pops from an empty list and raises IndexError, it returns no open site. `OpenSites.OpenSitesAsWritten` is the written result.
- Equality.ModifierEq: compares two reducing ends with the corrected `Equality.ReducedEndEq` (Findings row for monosaccharide.py:1315-1317). So `Equality.FlatEq`, `Equality.ExactEq` and `Equality.TopoEq` answer false where the source raises TypeError on link lists of different lengths.
- Equality.TopoEq: matches substituents with the corrected per-index claims (Findings row for monosaccharide.py:933-937). So `Equality.TopoEqReflexive` holds for residues with two equal substituents at one position, where the source's `topological_equality(r, r)` is false.
- Glycans.Glycan.Fragments: runs the corrected rounds and names with the corrected `name_fragment` (Findings rows for glycan.py:810-811 and glycan.py:1121). For `kind='BY'` with up to one cleavage, the model gives 4 fragments per link where the source gives 3. `FragmentSeries.RoundsAsWritten` and `FragmentNames.NameFragmentAsWritten` are the written versions.
- Glycans.Glycan.BreakRounds: computes the corrected `FragmentSeries.Rounds`, in which every round asks for every requested ion type, not the source's rebinding of `kind`.
- Glycans.Glycan.NameAll: names with the corrected `FragmentNames.NameFragmentOf`.
- Glycans.Glycan.NameFragment: gives the corrected `FragmentNames.NameFragmentOf`. The source names the fragment `YB` with link ids `[2, 1]` of a three-residue chain `B1-Y2`, where the model names it `B2-Y2`.
- GlycoCT.AddResidue: decodes residue lines with the corrected `GlycoCTSyntax.DecodeResidue` (Findings rows for glycoct.py:40 and glycoct.py:262). So a modification at position `x` is kept, where the source drops it, and an unmatched line such as `1b` is a format error, where the source raises AttributeError. Everything built on it inherits that: `GlycoCT.Step`, `GlycoCT.Consume` and the members below.
- GlycoCT.GlycoCTReader.HandleResidueLine: its new state is the corrected `GlycoCT.AddResidue`.
- GlycoCT.GlycoCTReader.Feed: dispatches residue lines to the corrected `GlycoCT.AddResidue`.
- GlycoCT.GlycoCTReader.Parse: reads with the corrected `GlycoCT.AddResidue`.
- GlycoCT.ReadAll: reads with the corrected `GlycoCT.AddResidue`.
- GlycoCT.ResidueNodes: holds for the corrected decoding, which keeps modifications at position `x`.
- GlycoCT.ReadResidueLines: the written descriptions may carry modifications at position `x`. They read back through the corrected decoding; the source's `modification_pattern` would drop them. With numeric positions only, the decoder as written reads the same residues back (`GlycoCTSyntax.DecodeResidueLineAsWritten`).
- GlycoCT.ReadDocumentTokens: the same read-back as `GlycoCT.ReadResidueLines`, through the corrected decoding.
- GlycoCT.ReadOneDocument: the same read-back, through the corrected decoding.
- GlycoCT.ReadTwoDocuments: the same read-back, through the corrected decoding.
- GlycoCT.WrittenDocumentFacts: "as described" holds for the corrected decoding, which keeps modifications at position `x`.
- `parse` yields a final glycan built from the current root even when no residue was read. The model follows the code (`GlycoCT.EmptyStream`).
- `parse_link` keeps only the text before the first bar in each position list. Positions are not collapsed any further.

## Findings

| source | as written | input that shows it | evidently intended | confidence | as-written member | corrected member |
|---|---|---|---|---|---|---|
| pygly2/structure/monosaccharide.py:484 | `position > self.superclass.value` is checked before the unknown-position test | `is_occupied('x')`: under Python 2 a string ranks above every number, so IndexError is raised | the unknown position `x` is always available and answers 0 | not executed | Monosaccharides.UnknownPositionRejectedAsWritten | Monosaccharides.IsOccupied |
| pygly2/structure/monosaccharide.py:561 | `position > self.superclass.value` in `drop_modification` | `drop_modification('x', d)`: under Python 2 a string ranks above every number, so IndexError is raised whatever is stored at `x` | `x` accepted, as the test `position not in {'x', -1}` intends | not executed | Monosaccharides.DropModificationUnknownAsWritten | Monosaccharides.UnknownModificationRoundTrip |
| pygly2/structure/monosaccharide.py:657 | the same upper bound in `drop_substituent` | `drop_substituent('x', 'n_acetyl')` on a residue with that substituent at `x` raises IndexError | the substituent at `x` is dropped | not executed | Monosaccharides.DropSubstituentUnknownAsWritten | Monosaccharides.DropSubstituentAtUnknown |
| pygly2/structure/monosaccharide.py:752 | the same upper bound in `drop_monosaccharide` | `drop_monosaccharide('x')` on a residue with one bond at `x` raises IndexError | the bond at `x` is broken | not executed | Monosaccharides.DropMonosaccharideUnknownAsWritten | Monosaccharides.DropMonosaccharideAtUnknown |
| pygly2/structure/monosaccharide.py:532-534 | the bare `except` falls back on `modification.composition` | `add_modification('en', 2)` on a hexose: the rule lookup raises TypeError, then the member has no `composition`, so AttributeError | a modification without a rule is recorded and changes no composition | not executed | Monosaccharides.RulelessAddAsWritten | Monosaccharides.RulelessAddRecorded |
| pygly2/composition/structure_composition.py:41 | `CompositionRule()` is called without its base argument | looking up a modification name with no rule raises TypeError | an empty rule that contributes nothing | not executed | Compositions.RuleLookupUnknownName | Compositions.UnknownRuleIsEmpty |
| pygly2/structure/monosaccharide.py:933-937 | claimed substituents are recorded by position | a residue with two equal substituents at one position differs from itself | claims recorded per substituent, so every residue matches itself | not executed | Equality.MatchSubstituentsFailsOnSharedPosition | Equality.MatchSubstituentsReflexive |
| pygly2/structure/glycan.py:1121 | the B/C part reads `fragment.link_ids[0]` | on a three-residue chain labelled `-1` and `-2`, the fragment `YB` with link ids `[2, 1]` is named `B1-Y2` | each ion named after its own link: `B2-Y2` | not executed | FragmentNames.NameAsWrittenMisnames | FragmentNames.NamePrepends |
| pygly2/structure/monosaccharide.py:564 | `aldi` is looked up in the modification list, which holds the `ReducedEnd` object | `add_modification(1, aldi)` then `drop_modification(1, aldi)` raises ValueError | the reducing end is dropped and the residue restored | not executed | Monosaccharides.AldiDropFailsAsWritten | Monosaccharides.AldiAddThenDrop |
| pygly2/structure/monosaccharide.py:1207 | `substituent_link.child.name == substituent.name` is evaluated before `substituent is None` | `ReducedEnd.drop_substituent(1)` with a link at position 1 raises AttributeError | the first link at the position is broken | not executed | Monosaccharides.ReducedEndDropUnnamed | Monosaccharides.ReducedEndDropSubstituent |
| pygly2/structure/monosaccharide.py:1315-1317 | `izip_longest` pads the shorter link list with `None` | comparing a bare reducing end with one carrying a link raises TypeError | unequal link lists compare unequal | not executed | Equality.ReducedEndEqRaisesOnExtraLink | Equality.ReducedEndEqReflexive |
| pygly2/structure/monosaccharide.py:457-458 | `open_slots.pop()` runs whenever the ring end is unknown | a triose with carbons 1 to 3 occupied and ring end `x` pops from an empty list | no open site is reported | not executed | OpenSites.PopFromEmptyExample | OpenSites.OpenSitesCorrected |
| pygly2/structure/glycan.py:810-811 | the inner loop rebinds the parameter `kind` | `fragments(kind='BY', min_cleavages=0, max_cleavages=1)` asks round 1 only for B ions: 3 fragments per link instead of 4 | every round asks for every requested ion type | not executed | FragmentSeries.FragmentsAsWrittenDropsY | FragmentSeries.RoundsOnIntactGlycan |
| pygly2/io/glycoct.py:40 | `modification_pattern` takes positions as `\d+` | a residue line whose one modification is `x:d` loses it, though `res_pattern` admits the position `x` | positions as in `res_pattern`, `[0-9x]+` | not executed | GlycoCTSyntax.PositionXDroppedAsWritten | GlycoCTSyntax.DecodeResidueLine |
| pygly2/io/glycoct.py:262 | `res_pattern.search(...)` is used without a `None` test | the line `1b` raises AttributeError, not `GlycoCTError` | a `GlycoCTError` for an uninterpretable residue, as `parse_link` raises for links | not executed | GlycoCTSyntax.EmptyResidueEscapes | GlycoCTSyntax.ResidueErrorCorrected |
| pygly2/utils/enum.py:25 | `self.name != other or self.value != other` | `a != a` is true for a member whose value differs from its name, while `a == a` is true too | `!=` as the negation of `==` | not executed | Enums.NotEqualAsWrittenIsReflexive | Enums.NotEqualIrreflexive |
