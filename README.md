# NcHIPertFirstOrder: assembling and ordering the first-order system

This project models the core of NumCosmo's `NcHIPertFirstOrder` object. The
object collects the variables of a first-order cosmological perturbation
system from two kinds of providers:

- one gravitation object;
- components, one slot per background-variable id.

It builds the dependency list of each variable and reorders the variables
with Reverse Cuthill-McKee. It also stores the upper and lower bandwidths of
the reordered Jacobian.

The model is written in Dafny and follows the C code function by function:

- `Padding`: `_nc_hipert_first_order_add_pad`, as a loop over the list (`AddPad`) specified by `Padded`.
- `Sorting`: the comparator `__cmp_gint`, the library sort it is used with, and the duplicate-removal pass.
- `Resolver`: `_nc_hipert_first_order_solve_deps`.
  - The scan loop is `ScanRound` and the recursion is `SolveDeps`; both are proved against the function `Resolve`.
  - The closure `Resolve` computes is characterised by the `Reaches` relation.
  - The members that model the scan exactly as written are here too; see Findings.
- `Bandwidth`: the index rewrite and the bandwidth scan of `_nc_hipert_first_order_arrange_vars`, on the permutation pair that the RCM routine returns.
- `Assembly`: the value-level specification of `_nc_hipert_first_order_prepare_internal`.
  - `Assembled`: the table of variables (gravitation block first, then one block per occupied slot, each list padded by the block's offset).
  - `AggInfo`: the aggregated stress-energy table.
  - `ResolveTable`: every list resolved in order.
  - `Arranged` and `Rebuilt`: the reordered layout.
  - Lemmas about all of these.
- `FirstOrder`: the object itself.
  - A class `HIPertFirstOrder` with the fields the C code updates: gravitation object, component slots, active list, gauge, variable table and bandwidths.
  - Its methods: `PrepareInternal`, `ArrangeVars`, `AddComp`, `SetGauge` and `SetGrav`.
  - The loops they run, as methods proved against the `Assembly` functions.
- `Scenarios`: small systems worked through end to end.

A dependency entry is either a concrete variable index (`>= 0`) or a
negative placeholder code. The code stands for one of the four
gravitational potentials or one of the four stress-energy perturbations.
The header that numbers these codes (`nc_hipert_grav.h`) is not part of
this model. The codes are numbered -1 .. -8 in the order of the switch in
`solve_deps`.

The conditions under which the C code calls `g_error` or fails a
`g_assert` are modelled as a returned `Aborted(reason)` status. These are:

- a recursion level above 9;
- an unknown placeholder code;
- a gravitation object or an out-of-range id passed to `add_comp`.

## Model

All source paths are in `numcosmo/perturbations/nc_hipert_first_order.c`,
written in full in each row.

| member | source | states |
|---|---|---|
| Padding.AddPad | numcosmo/perturbations/nc_hipert_first_order.c:483-497 | the loop leaves exactly `Padded(a, pad)`, also on the early return for `pad == 0` |
| Padding.PaddedAt | numcosmo/perturbations/nc_hipert_first_order.c:489-496 | padding keeps the length, adds `pad` to every entry `>= 0` and leaves every negative entry as it was |
| Padding.PaddedByZero | numcosmo/perturbations/nc_hipert_first_order.c:487-488 | a zero offset is the identity, so the early return changes nothing |
| Padding.PaddedTwice | numcosmo/perturbations/nc_hipert_first_order.c:483-497 | padding by `p` then by `q` equals padding by `p + q` |
| Padding.PaddedInBlock | numcosmo/perturbations/nc_hipert_first_order.c:749-756 | a list of local indices below `n`, padded by the block offset, names only indices in `[pad, pad + n)` |
| Padding.PaddedSigns | numcosmo/perturbations/nc_hipert_first_order.c:489-496 | padding by a non-negative offset keeps the sign of every entry, so placeholders stay placeholders |
| Padding.PaddedBounded | numcosmo/perturbations/nc_hipert_first_order.c:483-497 | a list bounded by `n` is bounded by `pad + n` after padding |
| Sorting.CmpInt | numcosmo/perturbations/nc_hipert_first_order.c:501 | the result is negative, zero or positive exactly when the first int is less than, equal to or greater than the second |
| Sorting.SortAscCorrect | numcosmo/perturbations/nc_hipert_first_order.c:570 | the sort is a permutation (same multiset) into ascending order |
| Sorting.SortAscOfSorted | numcosmo/perturbations/nc_hipert_first_order.c:570 | an ascending list is left unchanged by the sort |
| Sorting.DedupElems | numcosmo/perturbations/nc_hipert_first_order.c:571-586 | dropping adjacent duplicates keeps exactly the values of the list |
| Sorting.DedupStrict | numcosmo/perturbations/nc_hipert_first_order.c:571-586 | on an ascending list, dropping adjacent duplicates leaves a strictly ascending list |
| Sorting.DedupOfStrict | numcosmo/perturbations/nc_hipert_first_order.c:571-586 | a strictly ascending list has nothing to drop |
| Sorting.SortUniqueCorrect | numcosmo/perturbations/nc_hipert_first_order.c:568-587 | sort then drop duplicates: strictly ascending, with exactly the values of the input |
| Sorting.SortUniqueOfStrict | numcosmo/perturbations/nc_hipert_first_order.c:568-587 | sort then drop duplicates is the identity on a strictly ascending list |
| Resolver.DropAdjacentDuplicates | numcosmo/perturbations/nc_hipert_first_order.c:571-586 | the in-place removal loop leaves exactly `Dedup(sorted)`, whose properties are proved in `Sorting` |
| Resolver.ScanAdvance | numcosmo/perturbations/nc_hipert_first_order.c:514-561 | one iteration of the scan: the entry under the cursor is the next original entry; a placeholder is removed and its expansion appended, a concrete entry is stepped over |
| Resolver.ScanRound | numcosmo/perturbations/nc_hipert_first_order.c:511-562 | the scan succeeds exactly when every negative entry is a known code; it then leaves one substitution round `Round(t, deps)`, and `subs` is set exactly when a placeholder was present |
| Resolver.SolveDeps | numcosmo/perturbations/nc_hipert_first_order.c:503-589 | the recursive resolution returns `Resolve(t, deps, r)`: failure above level 9 or on an unknown code; otherwise recursion after a substitution, or sort and duplicate removal |
| Resolver.ResolveFlatCorrect | numcosmo/perturbations/nc_hipert_first_order.c:568-587 | a list without placeholders resolves to its own values, strictly ascending |
| Resolver.ResolveSorted | numcosmo/perturbations/nc_hipert_first_order.c:564-587 | every successful resolution is strictly ascending |
| Resolver.ResolveSoundAt | numcosmo/perturbations/nc_hipert_first_order.c:503-589 | every resolved entry is a concrete index that the list reaches through the tables within the levels left |
| Resolver.ResolveComplete | numcosmo/perturbations/nc_hipert_first_order.c:503-589 | every concrete index the list reaches through the tables, at any depth, is in the resolved list |
| Resolver.ResolveCorrect | numcosmo/perturbations/nc_hipert_first_order.c:503-589 | a successful resolution happened at a level <= 9. The result is strictly ascending, has no placeholders, keeps every concrete entry and holds the whole reachable closure |
| Resolver.ResolveBounded | numcosmo/perturbations/nc_hipert_first_order.c:503-589 | with the list and tables bounded by `n`, every resolved index is in `[0, n)` |
| Resolver.ResolveIdempotent | numcosmo/perturbations/nc_hipert_first_order.c:503-589 | resolving a resolved list again, at any allowed level, returns it unchanged |
| Resolver.SelfExpansionRejected | numcosmo/perturbations/nc_hipert_first_order.c:509-510 | with `phi` expanding to itself, resolving `[phi]` from any level up to 10 fails with too many recursion levels |
| Resolver.RoundKnown | numcosmo/perturbations/nc_hipert_first_order.c:511-562 | with tables that list only the eight codes, a round of a list whose placeholders are all codes again has only codes as placeholders |
| Resolver.CycleRejected | numcosmo/perturbations/nc_hipert_first_order.c:509-567 | a known list holding a code of a set in which every code's expansion lists another code of the set (a cycle, or a code leading into one) fails with too many recursion levels from any level up to 10, whatever else the list holds |
| Resolver.SelfReferenceRejected | numcosmo/perturbations/nc_hipert_first_order.c:509-567 | a known list holding a code that its own expansion lists fails with too many recursion levels from any level up to 10 |
| Resolver.CyclicChainRejected | numcosmo/perturbations/nc_hipert_first_order.c:509-567 | a known list holding a code that reaches itself through a chain of expansions fails with too many recursion levels |
| Resolver.NoChainFromFlat | numcosmo/perturbations/nc_hipert_first_order.c:568-570 | no chain of codes starts at an entry of a list without placeholders |
| Resolver.ChainFromRound | numcosmo/perturbations/nc_hipert_first_order.c:511-567 | the chains of `k` codes starting in a round are exactly the tails of the chains of `k + 1` codes starting in the list |
| Resolver.ResolveChains | numcosmo/perturbations/nc_hipert_first_order.c:503-589 | with known tables and a known list, resolution from level `r <= 9` either succeeds or fails with too many recursion levels, and it fails exactly when a chain of `10 - r` codes starts at an entry of the list |
| Resolver.LongChainCyclic | numcosmo/perturbations/nc_hipert_first_order.c:509-510 | a chain of nine or more codes repeats one of the eight codes, so the tables have a cycle |
| Resolver.AcyclicResolves | numcosmo/perturbations/nc_hipert_first_order.c:503-589 | with known tables that have no cycle, every known list resolves successfully from level 0 or 1 |
| Resolver.SelfExpansionLoopsAsWritten | numcosmo/perturbations/nc_hipert_first_order.c:512-562 | as written, the scan over `[phi]` with `phi` expanding to itself is back at its start after any number of iterations |
| Resolver.ScanAsWrittenLeavesConcrete | numcosmo/perturbations/nc_hipert_first_order.c:512-562 | as written, every entry behind the scan cursor is concrete, so a scan that reaches the end leaves no placeholder |
| Bandwidth.NewIndexMatchesRows | numcosmo/perturbations/nc_hipert_first_order.c:674-692 | the new indices `perm_inv[v] - 1` are a bijection onto `0..n-1`, and the variable read in row `i` gets index `i` |
| Bandwidth.IndexAsWrittenMisplaces | numcosmo/perturbations/nc_hipert_first_order.c:657-662 | with `perm = [3, 1, 2]`, line 660 gives variable 0 index 2 although the band scan puts it in row 1 |
| Bandwidth.RowUpperBounds | numcosmo/perturbations/nc_hipert_first_order.c:688-696 | the running upper maximum of a row bounds its start value and every offset `col - i`, and equals one of them |
| Bandwidth.RowLowerBounds | numcosmo/perturbations/nc_hipert_first_order.c:688-696 | the running lower maximum of a row bounds its start value and every offset `i - col`, and equals one of them |
| Bandwidth.BandBounds | numcosmo/perturbations/nc_hipert_first_order.c:670-699 | both bandwidths are non-negative and bound every offset of every row of the pattern |
| Bandwidth.UpperAttained | numcosmo/perturbations/nc_hipert_first_order.c:670-699 | a positive upper bandwidth is the offset of some entry |
| Bandwidth.LowerAttained | numcosmo/perturbations/nc_hipert_first_order.c:670-699 | a positive lower bandwidth is the offset of some entry |
| Bandwidth.BandCoversDependencies | numcosmo/perturbations/nc_hipert_first_order.c:674-696 | after reordering, every dependency lies within the two bandwidths of its variable's new index |
| Bandwidth.UpperAttainedByDependency | numcosmo/perturbations/nc_hipert_first_order.c:674-696 | a positive upper bandwidth is the forward offset of some dependency |
| Bandwidth.LowerAttainedByDependency | numcosmo/perturbations/nc_hipert_first_order.c:674-696 | a positive lower bandwidth is the backward offset of some dependency |
| Assembly.AssembleAdvance | numcosmo/perturbations/nc_hipert_first_order.c:735-758 | one slot more: an empty slot changes nothing; an occupied slot appends its block at the end of the table and its padded table to the aggregate |
| Assembly.ResolveTableStep | numcosmo/perturbations/nc_hipert_first_order.c:818-822 | one more variable resolved extends the resolved table by that variable with its resolved list |
| Assembly.ResolveTableFailsAt | numcosmo/perturbations/nc_hipert_first_order.c:818-822 | one variable whose list fails to resolve makes the whole table fail with that error |
| Assembly.ResolveTableFailFast | numcosmo/perturbations/nc_hipert_first_order.c:818-822 | once a prefix fails, the whole table fails with the same error |
| Assembly.CompBlocksSize | numcosmo/perturbations/nc_hipert_first_order.c:735-758 | the component blocks hold one variable per dynamical variable of the occupied slots |
| Assembly.AssembledSize | numcosmo/perturbations/nc_hipert_first_order.c:719-758 | the table has `grav_ndyn` plus the sum of the occupied slots' `ndyn` variables |
| Assembly.GravVarsFirst | numcosmo/perturbations/nc_hipert_first_order.c:723-731 | variable `i < grav_ndyn` is owned by -1, sits at index `i` and keeps its list unpadded |
| Assembly.CompBlocksAt | numcosmo/perturbations/nc_hipert_first_order.c:735-758 | variable `j` of slot `s` sits at the slot's running offset plus `j`, owned by `s`, with its list padded by that offset |
| Assembly.CompVarPlacement | numcosmo/perturbations/nc_hipert_first_order.c:735-758 | the same placement in the whole table, where the offset is `grav_ndyn` plus the `ndyn` of the slots before |
| Assembly.CompBlocksOwners | numcosmo/perturbations/nc_hipert_first_order.c:749-756 | every component variable sits at its own index and is owned by an occupied slot |
| Assembly.AssembledOwners | numcosmo/perturbations/nc_hipert_first_order.c:719-758 | every variable's index is its position; the owner is -1 exactly for the first `grav_ndyn`, and any other owner is an occupied slot |
| Assembly.CompBlocksBounded | numcosmo/perturbations/nc_hipert_first_order.c:735-758 | with well-formed components, every concrete index in the blocks is below the end of the last block |
| Assembly.AggInfoBounded | numcosmo/perturbations/nc_hipert_first_order.c:741-743 | with well-formed components, every concrete index in the aggregated stress-energy table is below the end of the last block |
| Assembly.AssembledBounded | numcosmo/perturbations/nc_hipert_first_order.c:719-758 | with well-formed providers, every concrete index of the table and of both tables is a position of the table |
| Assembly.ResolveTableShape | numcosmo/perturbations/nc_hipert_first_order.c:818-822 | resolving the table keeps every owner and index and replaces each list by its resolution |
| Assembly.ResolveTableFailure | numcosmo/perturbations/nc_hipert_first_order.c:818-822 | a failed table resolution fails at some variable whose own resolution fails with the same error |
| Assembly.ResolvedTable | numcosmo/perturbations/nc_hipert_first_order.c:818-822 | the resolved table of well-formed providers keeps owners and indices. Every list is strictly ascending, without placeholders, and names only positions of the table |
| Assembly.ArrangedIndices | numcosmo/perturbations/nc_hipert_first_order.c:657-662 | reordering keeps every owner and list and makes the indices a permutation of the positions |
| Assembly.ArrangedBands | numcosmo/perturbations/nc_hipert_first_order.c:670-699 | the stored bandwidths are non-negative and bound the index distance of every dependency in the reordered table |
| Assembly.ArrangedBandsAttained | numcosmo/perturbations/nc_hipert_first_order.c:670-699 | each positive bandwidth is the index distance of some dependency in the reordered table |
| Assembly.RebuiltOwners | numcosmo/perturbations/nc_hipert_first_order.c:710-832 | after a successful rebuild there is one variable per dynamical variable; the first `grav_ndyn` are gravitation's, every other belongs to an occupied slot |
| Assembly.RebuiltLists | numcosmo/perturbations/nc_hipert_first_order.c:710-832 | after a successful rebuild each list is the resolution of the list its provider reported. It is strictly ascending and names only variables of the table |
| Assembly.RebuiltBanded | numcosmo/perturbations/nc_hipert_first_order.c:710-832 | after a successful rebuild the indices are a permutation, and the bandwidths bound every dependency's index distance and are attained when positive |
| Assembly.RebuiltFailure | numcosmo/perturbations/nc_hipert_first_order.c:818-823 | a failed rebuild fails at a variable whose own list cannot be resolved |
| FirstOrder.Resized | numcosmo/perturbations/nc_hipert_first_order.c:1029 | growing the slot array keeps the existing slots and adds empty ones up to `len` |
| FirstOrder.AppendPadded | numcosmo/perturbations/nc_hipert_first_order.c:724-731 | appends one provider's variables, owned by `src`, at the end of the table, each list padded by the table's length |
| FirstOrder.AssembleFrom | numcosmo/perturbations/nc_hipert_first_order.c:719-758 | the assembly loops build exactly `Assembled` and the aggregated table `AggInfo` |
| FirstOrder.ScanRow | numcosmo/perturbations/nc_hipert_first_order.c:688-696 | the inner band loop leaves the running forward and backward maxima of the row's columns `perm_inv[d] - 1` |
| FirstOrder.Bands | numcosmo/perturbations/nc_hipert_first_order.c:670-699 | the band scan leaves `UpperBand` and `LowerBand` of the permuted pattern, whose properties are proved in `Bandwidth` |
| FirstOrder.ResolveAll | numcosmo/perturbations/nc_hipert_first_order.c:818-822 | resolving every variable in order returns `ResolveTable`, the first failure included |
| FirstOrder.RegaugeAll | numcosmo/perturbations/nc_hipert_first_order.c:851-856 | every occupied slot is switched to the new gauge and empty slots stay empty |
| FirstOrder.ResizeKeepsValid | numcosmo/perturbations/nc_hipert_first_order.c:1029 | growing the slot array keeps the object's invariant |
| FirstOrder.AddKeepsValid | numcosmo/perturbations/nc_hipert_first_order.c:1034-1038 | placing a component in its free slot and appending its id to the active list keeps the invariant |
| FirstOrder.RegaugeKeepsValid | numcosmo/perturbations/nc_hipert_first_order.c:846-858 | switching the gravitation object and every slot to a new gauge keeps the invariant |
| FirstOrder.HIPertFirstOrder.constructor | numcosmo/perturbations/nc_hipert_first_order.c:114-133 | a new object has no gravitation object, no slots, no active components, the unset gauge, an empty table and zero bandwidths |
| FirstOrder.HIPertFirstOrder.Reindex | numcosmo/perturbations/nc_hipert_first_order.c:657-662 | every variable's index becomes its new row `perm_inv[i] - 1`; nothing else changes |
| FirstOrder.HIPertFirstOrder.MeasureBands | numcosmo/perturbations/nc_hipert_first_order.c:670-699 | the stored bandwidths become those of the permuted pattern; the table is unchanged |
| FirstOrder.HIPertFirstOrder.ArrangeVars | numcosmo/perturbations/nc_hipert_first_order.c:591-708 | the table and bandwidths become `Arranged` of the old table under the RCM order of its dependency graph |
| FirstOrder.HIPertFirstOrder.Assemble | numcosmo/perturbations/nc_hipert_first_order.c:719-758 | the table becomes `Assembled` of the providers' replies, and the tables returned are gravitation's and the aggregated one |
| FirstOrder.HIPertFirstOrder.SolveAll | numcosmo/perturbations/nc_hipert_first_order.c:818-822 | every list is resolved in place, or the first fatal error is returned |
| FirstOrder.HIPertFirstOrder.PrepareInternal | numcosmo/perturbations/nc_hipert_first_order.c:710-832 | without a gravitation object nothing changes; otherwise the state is the result of `Rebuilt`, or `Aborted` with its error |
| FirstOrder.HIPertFirstOrder.Occupy | numcosmo/perturbations/nc_hipert_first_order.c:1034-1039 | the component takes its slot in the object's gauge, joins the end of the active list, and the system is rebuilt |
| FirstOrder.HIPertFirstOrder.GrowSlots | numcosmo/perturbations/nc_hipert_first_order.c:1029 | the slot array becomes one slot per background variable and nothing else changes |
| FirstOrder.HIPertFirstOrder.AddComp | numcosmo/perturbations/nc_hipert_first_order.c:1018-1042 | gravitation or an out-of-range id aborts with nothing changed; a taken slot is ignored with nothing changed; otherwise the slots are grown, the component is registered and the system rebuilt. Only a provider that reaches the registering path must report well-formed lists |
| FirstOrder.HIPertFirstOrder.SwitchGauge | numcosmo/perturbations/nc_hipert_first_order.c:846-858 | the gravitation object, every occupied slot and the object take the new gauge; the table is unchanged |
| FirstOrder.HIPertFirstOrder.SetGauge | numcosmo/perturbations/nc_hipert_first_order.c:842-861 | the same gauge changes nothing; a new one switches every provider and the object and rebuilds |
| FirstOrder.HIPertFirstOrder.SetGrav | numcosmo/perturbations/nc_hipert_first_order.c:970-980 | the old gravitation object is dropped. A new one is switched to the object's gauge and the system rebuilt. None leaves the table and bandwidths as they were |
| Scenarios.ResolveResolved | numcosmo/perturbations/nc_hipert_first_order.c:564-587 | example: a strictly ascending list without placeholders resolves to itself |
| Scenarios.ResolveSingleCode | numcosmo/perturbations/nc_hipert_first_order.c:511-587 | example: a lone placeholder whose expansion is resolved resolves to that expansion |
| Scenarios.ResolveTablePair | numcosmo/perturbations/nc_hipert_first_order.c:818-822 | example: a two-variable table resolves variable by variable |
| Scenarios.ArrangedLone | numcosmo/perturbations/nc_hipert_first_order.c:657-699 | example: a lone variable lands at index 0 with both bandwidths 0 |
| Scenarios.SingleGravityTable | numcosmo/perturbations/nc_hipert_first_order.c:719-822 | example: one gravitation variable without dependencies assembles and resolves to itself |
| Scenarios.SingleGravityVariable | numcosmo/perturbations/nc_hipert_first_order.c:710-832 | example: its rebuild has one variable at index 0 and zero bandwidths |
| Scenarios.TwoSlotLayout | numcosmo/perturbations/nc_hipert_first_order.c:735-758 | example: two one-variable slots are placed at 0 and 1 with their tables padded by 0 and 1 |
| Scenarios.MutualVars | numcosmo/perturbations/nc_hipert_first_order.c:735-758 | example: the table of two components whose lists are a single placeholder |
| Scenarios.MutualTables | numcosmo/perturbations/nc_hipert_first_order.c:741-743 | example: their aggregated `drho` and `dp` lists after padding |
| Scenarios.MutualLayout | numcosmo/perturbations/nc_hipert_first_order.c:735-758 | example: the table and aggregated lists together |
| Scenarios.MutualResolution | numcosmo/perturbations/nc_hipert_first_order.c:818-822 | example: each of the two variables resolves to the other |
| Scenarios.TwoCycleArranged | numcosmo/perturbations/nc_hipert_first_order.c:657-699 | example: whatever the order, two mutually dependent variables get distinct indices and both bandwidths 1 |
| Scenarios.RebuiltOfResolved | numcosmo/perturbations/nc_hipert_first_order.c:710-832 | a rebuild whose table resolves is the arrangement of the resolved table |
| Scenarios.MutualWellFormed | numcosmo/perturbations/nc_hipert_first_order.c:735-758 | example: the two mutually dependent providers only name their own variables |
| Scenarios.MutualResolved | numcosmo/perturbations/nc_hipert_first_order.c:818-822 | example: the resolved table of the two components, each depending on the other |
| Scenarios.MutuallyDependentComponents | numcosmo/perturbations/nc_hipert_first_order.c:710-832 | example: the whole rebuild for the two components: two variables, distinct indices, each depending on the other, bandwidths 1 and 1 |
| Scenarios.SelfExpandingGravityRejected | numcosmo/perturbations/nc_hipert_first_order.c:509-510 | example: a gravitation variable depending on a self-expanding `phi` makes the rebuild fail with too many recursion levels |
| Scenarios.DuplicateComponentIgnored | numcosmo/perturbations/nc_hipert_first_order.c:1024-1032 | example: adding the same id twice succeeds once, ignores the second call whatever the second provider reports, aborts for an id past the table, and keeps one active entry |

## Left out

- The providers (`NcHIPertGrav`, `NcHIPertComp`) and the background-variable object are not part of this model.
  - Each provider is a value: its current gauge and a function from gauge to the dependency lists and table it reports.
  - `len` (the number of background variables) is fixed when the object is created.
- Assembly.WellFormedGrav, Assembly.WellFormedComp: each provider is taken to know only its own variables, as the design has every component report its local dependencies. So every concrete entry of its lists must be a local index below its own `ndyn`. This is a `requires` of `SetGrav` and `SetGauge`, of `AddComp` on the path that registers the component, and part of the object invariant. The C code accepts two kinds of entries that these predicates exclude:
  - Entries that stay inside the table after padding. Examples: a gravitation entry naming a component variable by its global index, or a component entry at or past its own `ndyn` whose padded value is still below the number of variables. Lines 483-497 and 723-757 pad such an entry like any other, and lines 617-699 then treat it as an ordinary edge between variables of different providers, with a defined outcome. The model does not cover tables with such cross-provider edges.
  - Entries whose padded value reaches the number of variables. For these, line 635 hands `adj_set` a node outside the graph and line 637 writes `Jrow` past its end. Line 690 then reads `perm_inv` past its end, and line 696 writes `Jrow` at whatever row that yields. None of this has a defined outcome to model.
- The RCM reordering (`genrcm`, `perm_inverse3`, `adj_set`) is not part of this model. It enters as any routine that returns a permutation of `1..n` together with its inverse. Whether that permutation actually reduces the bandwidth is not stated.
- GLib's `g_array_sort` is modelled by an insertion sort with the same comparator. Any sort with that comparator gives the same list of ints.
- `g_error` and failed `g_assert`s end the process in C. In the model they return `Aborted(reason)`.
  - `AddComp` leaves the object unchanged in that case.
  - `PrepareInternal` leaves the table and bandwidths unspecified after an abort, since the process would not continue.
- The two `if (FALSE)` debug blocks (lines 609-613 and 761-816) never run and are left out.
- Left out as output with no effect on the state:
  - the Jacobian pictures printed with `ncm_message`;
  - the `g_message` of the bandwidths;
  - the warning on a duplicate component.
- The C code pads the providers' own arrays in place and frees the temporary tables. The model builds new values instead. Sharing of these arrays with the providers (aliasing) is not modelled.
- Reference counting, `GObject` properties, the class boilerplate, the integrator, the right-hand-side evaluation and `cur_sys_size` are outside the core modelled here.
- Everything about the gauge beyond which value a provider was last switched to is not modelled. The gauge is a tag; what each provider reports for a given gauge is its own business.
- Resolver.SolveDeps: resolves each scan over the entries present when the scan starts, not over the growing list as line 512 is written. See Findings, row 1.
- FirstOrder.HIPertFirstOrder.Reindex: sets index `perm_inv[i] - 1`, not `perm[i] - 1` as line 660 is written. See Findings, row 2.
- FirstOrder.HIPertFirstOrder.ArrangeVars: its stored indices, and the bandwidths computed over them, follow the corrected index `perm_inv[i] - 1` and not line 660 as written. See Findings, row 2.
- Assembly.ArrangedBands: states the band bound over the corrected index `perm_inv[i] - 1`, not the index line 660 stores. See Findings, row 2.
- Assembly.ArrangedBandsAttained: states attainment over the corrected index `perm_inv[i] - 1`, not the index line 660 stores. See Findings, row 2.
- Assembly.RebuiltBanded: states the permutation and band results over the corrected index `perm_inv[i] - 1`, not the index line 660 stores. See Findings, row 2.

## Findings

| source | as written | input that shows it | evidently intended | confidence | as-written member | corrected member |
|---|---|---|---|---|---|---|
| numcosmo/perturbations/nc_hipert_first_order.c:512 | The scan loop's bound `i < deps->len` is read again after each `APPEND`, so the expansions appended during a scan are scanned by the same scan. A placeholder that expands to a list holding itself is replaced by itself forever at level 0, and the `r > 9` guard of lines 509-510 is never reached. Worse, since a finished scan leaves no placeholder behind, the recursion never goes deeper than level 1 and the guard can never fire. | `phi_deps = [PHI]` and a dependency list `[PHI]` | one substitution round per level over the entries present when the scan starts, so that a cyclic expansion is cut off by the ten-level cap | medium, not executed | Resolver.SelfExpansionLoopsAsWritten, Resolver.ScanAsWrittenLeavesConcrete (both on Resolver.ScanAsWritten) | Resolver.ScanRound, Resolver.SolveDeps, Resolver.SelfExpansionRejected, Resolver.CycleRejected, Resolver.AcyclicResolves, Scenarios.SelfExpandingGravityRejected |
| numcosmo/perturbations/nc_hipert_first_order.c:660 | Each variable's index is set to `perm[i] - 1`. The band scan of lines 674-692, however, treats `perm[i] - 1` as the variable placed in row `i` and `perm_inv[d] - 1` as the row of variable `d`. So the stored index of a variable is not the row it was moved to whenever the permutation is not an involution. | `perm = [3, 1, 2]`, `perm_inv = [2, 3, 1]`: row 1 holds variable 0, whose index is set to 2 | `var->index = perm_inv[i] - 1`: every variable's index is its row, and the indices are a bijection onto the rows | medium, not executed | Bandwidth.IndexAsWrittenMisplaces (on Bandwidth.NewIndexAsWritten) | Bandwidth.NewIndexMatchesRows, FirstOrder.HIPertFirstOrder.Reindex, Assembly.ArrangedIndices |
