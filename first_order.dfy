/** NcHIPertFirstOrder: the object that owns the gravitation provider, the
    component slots, the gauge, and the variable table and bandwidths it
    rebuilds whenever one of them changes. */
module FirstOrder {
  import opened Outcomes
  import opened Padding
  import opened Resolver
  import opened Bandwidth
  import opened Assembly

  /** NcHIPertGravGauge. The enumeration's members are not part of this
      model; `GaugeUnset` is NC_HIPERT_GRAV_GAUGE_LEN, the value the object
      starts with. */
  datatype Gauge = GaugeUnset | GaugeCode(code: nat)

  /** A gravitation provider: its current gauge and what it reports in each gauge. */
  datatype Grav = Grav(gauge: Gauge, reply: Gauge -> GravReply)

  /** A component provider: its background-variable id, whether it is in
      fact a gravitation object, its current gauge and what it reports in
      each gauge. */
  datatype Comp = Comp(id: int, isGrav: bool, gauge: Gauge, reply: Gauge -> CompReply)

  /** What the gravitation provider reports in its current gauge. */
  function Answer(g: Grav): GravReply
  {
    g.reply(g.gauge)
  }

  /** What each occupied slot reports in its current gauge. */
  function Answers(comps: seq<Option<Comp>>): (r: seq<Option<CompReply>>)
    ensures |r| == |comps|
    ensures forall s :: 0 <= s < |comps| ==> (r[s].Some? <==> comps[s].Some?)
  {
    seq(|comps|, s requires 0 <= s < |comps| =>
      match comps[s] case None => None case Some(c) => Some(c.reply(c.gauge)))
  }

  /** Every occupied slot switched to gauge `ga`. */
  function Regauged(comps: seq<Option<Comp>>, ga: Gauge): (r: seq<Option<Comp>>)
    ensures |r| == |comps|
    ensures forall s :: 0 <= s < |comps| ==> (r[s].Some? <==> comps[s].Some?)
  {
    seq(|comps|, s requires 0 <= s < |comps| =>
      match comps[s] case None => None case Some(c) => Some(c.(gauge := ga)))
  }

  /** g_ptr_array_set_size: grow with empty slots up to `n`. */
  function Resized(comps: seq<Option<Comp>>, n: nat): (r: seq<Option<Comp>>)
    requires |comps| <= n
    ensures |r| == n && r[..|comps|] == comps
    ensures forall s :: |comps| <= s < n ==> r[s].None?
  {
    comps + seq(n - |comps|, _ => None)
  }

  /** Appends one provider's variables, owner `src`, each placed at the
      current end of the table with its list padded by the table's length
      (the inner loops of lines 724-731 and 749-756). */
  method AppendPadded(vs: seq<Var>, deps: seq<seq<int>>, src: int) returns (r: seq<Var>)
    ensures r == vs + Block(deps, src, |vs|)
  {
    ghost var block := Block(deps, src, |vs|);
    r := vs;
    for j := 0 to |deps|
      invariant r == vs + block[..j]
    {
      var d := AddPad(deps[j], |vs|);
      r := r + [Var(src, |r|, d)];
      assert block[..j + 1] == block[..j] + [block[j]];
    }
    assert block[..|deps|] == block;
  }

  /** The loops of lines 719-756 on the providers' replies: the table and
      the aggregated stress-energy table they build. */
  method AssembleFrom(g: GravReply, comps: seq<Option<Comp>>) returns (vs: seq<Var>, ts: TScalarInfo)
    ensures vs == Assembled(g, Answers(comps)) && ts == AggInfo(Answers(comps), |g.deps|)
  {
    ghost var ans := Answers(comps);
    vs := AppendPadded([], g.deps, GRAV_SRC);
    ts := EmptyTScalarInfo;
    assert ans[..0] == [];
    for i := 0 to |comps|
      invariant AssembleInv(g, ans, i, vs, ts)
    {
      AssembleAdvance(g, ans, i, vs, ts);
      match comps[i]
      case None =>
      case Some(c) =>
        var r := c.reply(c.gauge);
        assert ans[i] == Some(r);
        var pad := |vs|;
        ts := AppendInfo(ts, PadInfo(r.tinfo, pad));
        vs := AppendPadded(vs, r.deps, i);
    }
    assert ans[..|comps|] == ans;
  }

  /** The object's invariant on its slots (see `HIPertFirstOrder.Valid`). */
  ghost predicate SlotsValid(len: nat, comps: seq<Option<Comp>>, active: seq<int>, gauge: Gauge)
  {
    (|comps| == 0 || |comps| == len) &&
    (forall s :: 0 <= s < |comps| && comps[s].Some? ==>
      comps[s].value.id == s && !comps[s].value.isGrav && comps[s].value.gauge == gauge) &&
    SlotsWellFormed(Answers(comps)) &&
    (forall k :: 0 <= k < |active| ==> 0 <= active[k] < |comps|) &&
    (forall k, m :: 0 <= k < m < |active| ==> active[k] != active[m]) &&
    (forall s :: 0 <= s < |comps| ==> (comps[s].Some? <==> s in active))
  }

  /** The object's invariant on its gravitation object. */
  ghost predicate GravValid(grav: Option<Grav>, gauge: Gauge)
  {
    grav.Some? ==> grav.value.gauge == gauge && WellFormedGrav(Answer(grav.value))
  }

  /** The state a call of `_nc_hipert_first_order_prepare_internal` leaves
      in `now`, given the table and bandwidths `before` it: without a
      gravitation object nothing changes; otherwise the rebuild's outcome. */
  ghost predicate Prepared(rcm: Reorderer, grav: Option<Grav>, comps: seq<Option<Comp>>, st: Status, now: Layout, before: Layout)
    requires grav.Some? ==> WellFormedGrav(Answer(grav.value))
    requires SlotsWellFormed(Answers(comps))
  {
    match grav
    case None => st == Done && now == before
    case Some(g) =>
      match Rebuilt(rcm, Answer(g), Answers(comps))
      case Failure(e) => st == Aborted(e)
      case Success(l) => st == Done && now == l
  }

  /** Growing the slot array to `len` empty-ended slots keeps the invariant. */
  lemma ResizeKeepsValid(len: nat, comps: seq<Option<Comp>>, active: seq<int>, gauge: Gauge)
    requires SlotsValid(len, comps, active, gauge)
    ensures |comps| <= len
    ensures SlotsValid(len, Resized(comps, len), active, gauge)
  {
    var r := Resized(comps, len);
    assert forall s :: 0 <= s < |comps| ==> r[s] == comps[s];
    assert forall s :: 0 <= s < |comps| ==> Answers(r)[s] == Answers(comps)[s];
  }

  /** Registering a component in a free slot of the full-size slot array
      keeps the invariant. */
  lemma AddKeepsValid(len: nat, comps: seq<Option<Comp>>, active: seq<int>, gauge: Gauge, c: Comp)
    requires SlotsValid(len, comps, active, gauge) && |comps| == len
    requires !c.isGrav && 0 <= c.id < len && comps[c.id].None? && WellFormedComp(c.reply(gauge))
    ensures SlotsValid(len, comps[c.id := Some(c.(gauge := gauge))], active + [c.id], gauge)
  {
    var n := comps[c.id := Some(c.(gauge := gauge))];
    forall s | 0 <= s < len && Answers(n)[s].Some?
      ensures WellFormedComp(Answers(n)[s].value)
    {
      if s != c.id {
        assert Answers(n)[s] == Answers(comps)[s];
      }
    }
    assert c.id !in active;
  }

  /** Switching the gravitation object and every occupied slot to a new
      gauge keeps the invariant, given both are well formed in that gauge. */
  lemma RegaugeKeepsValid(len: nat, grav: Option<Grav>, comps: seq<Option<Comp>>, active: seq<int>, gauge: Gauge, ga: Gauge)
    requires SlotsValid(len, comps, active, gauge) && GravValid(grav, gauge)
    requires grav.Some? ==> WellFormedGrav(grav.value.reply(ga))
    requires forall s :: 0 <= s < |comps| && comps[s].Some? ==> WellFormedComp(comps[s].value.reply(ga))
    ensures SlotsValid(len, Regauged(comps, ga), active, ga)
    ensures GravValid(match grav case None => None case Some(g) => Some(g.(gauge := ga)), ga)
  {
    var n := Regauged(comps, ga);
    forall s | 0 <= s < |n| && Answers(n)[s].Some?
      ensures WellFormedComp(Answers(n)[s].value)
    {
      assert Answers(n)[s].value == comps[s].value.reply(ga);
    }
  }

  /** The inner loop of the band scan (lines 688-696): the dependencies
      `deps` of the variable in row `i` land in columns `inv[d] - 1`; the
      largest forward and backward offsets are kept on top of `mu0` and
      `ml0`. */
  method ScanRow(deps: seq<int>, inv: seq<int>, i: int, mu0: int, ml0: int) returns (mupper: int, mlower: int)
    requires forall j :: 0 <= j < |deps| ==> 0 <= deps[j] < |inv|
    ensures var row := seq(|deps|, j requires 0 <= j < |deps| => inv[deps[j]] - 1);
      mupper == RowUpper(row, i, mu0) && mlower == RowLower(row, i, ml0)
  {
    ghost var row := seq(|deps|, j requires 0 <= j < |deps| => inv[deps[j]] - 1);
    mupper, mlower := mu0, ml0;
    for j := 0 to |deps|
      invariant mupper == RowUpper(row[..j], i, mu0)
      invariant mlower == RowLower(row[..j], i, ml0)
    {
      var col := inv[deps[j]] - 1;
      assert row[..j + 1][..j] == row[..j] && row[j] == col;
      mupper := Max(mupper, col - i);
      mlower := Max(mlower, i - col);
    }
    assert row[..|deps|] == row;
  }

  /** The band scan of lines 670-699 on the dependency lists: row `i`
      holds the variable `perm[i] - 1`, each of its dependencies `d` lands
      in column `inv[d] - 1`, and the largest forward and backward offsets
      are kept. */
  method Bands(graph: seq<seq<int>>, perm: seq<int>, inv: seq<int>) returns (mupper: int, mlower: int)
    requires IsInversePair(perm, inv, |graph|) && DepsIn(graph, |graph|)
    ensures mupper == UpperBand(Permuted(graph, perm, inv))
    ensures mlower == LowerBand(Permuted(graph, perm, inv))
  {
    ghost var rows := Permuted(graph, perm, inv);
    var n := |graph|;
    mupper := 0;
    mlower := 0;
    for i := 0 to n
      invariant mupper == UpperBand(rows[..i]) && mlower == LowerBand(rows[..i])
    {
      var deps := graph[perm[i] - 1];
      ghost var row := rows[i];
      assert row == PermutedRow(graph, perm, inv, i);
      ghost var mu0, ml0 := mupper, mlower;
      mupper, mlower := ScanRow(deps, inv, i, mupper, mlower);
      assert rows[..i + 1][..i] == rows[..i] && rows[..i + 1][i] == row;
      assert UpperBand(rows[..i + 1]) == RowUpper(row, i, mu0);
      assert LowerBand(rows[..i + 1]) == RowLower(row, i, ml0);
    }
    assert rows[..n] == rows;
  }

  /** The loop of lines 818-822 on a table: every variable's list resolved,
      in order; the first fatal error ends the run. */
  method ResolveAll(t: Tables, vs: seq<Var>) returns (res: Result<seq<Var>, Fatal>)
    ensures res == ResolveTable(t, vs)
  {
    var out := [];
    for i := 0 to |vs|
      invariant ResolveTable(t, vs[..i]) == Success(out)
    {
      var r := SolveDeps(t, vs[i].deps, 0);
      match r
      case Failure(e) =>
        ResolveTableFailsAt(t, vs, i, out, e);
        return Failure(e);
      case Success(d) =>
        ResolveTableStep(t, vs, i, out, d);
        out := out + [vs[i].(deps := d)];
    }
    assert vs[..|vs|] == vs;
    res := Success(out);
  }

  /** The loop of lines 851-856: every occupied slot's component is
      switched to gauge `ga`. */
  method RegaugeAll(comps: seq<Option<Comp>>, ga: Gauge) returns (r: seq<Option<Comp>>)
    ensures r == Regauged(comps, ga)
  {
    r := comps;
    for i := 0 to |comps|
      invariant |r| == |comps|
      invariant forall s :: 0 <= s < |comps| ==> r[s] == if s < i then Regauged(comps, ga)[s] else comps[s]
    {
      match r[i]
      case None =>
      case Some(c) =>
        r := r[i := Some(c.(gauge := ga))];
    }
  }

  class HIPertFirstOrder {
    /** Number of background variables, the number of component slots. */
    const len: nat
    /** The reverse Cuthill-McKee routine (genrcm with perm_inverse3). */
    const rcm: Reorderer
    var grav: Option<Grav>
    var comps: seq<Option<Comp>>
    /** The slots of the active components, in the order they were added. */
    var activeComps: seq<int>
    var gauge: Gauge
    var vars: seq<Var>
    var mupper: int
    var mlower: int

    /** The slots hold components of their own id, none of them gravitation,
        all in the object's gauge; the active list names each occupied slot
        exactly once; the providers name only their own variables. */
    ghost predicate Valid()
      reads this
    {
      SlotsValid(len, comps, activeComps, gauge) && GravValid(grav, gauge)
    }

    constructor(len: nat, rcm: Reorderer)
      ensures this.len == len && this.rcm == rcm
      ensures grav.None? && comps == [] && activeComps == [] && gauge == GaugeUnset
      ensures vars == [] && mupper == 0 && mlower == 0
      ensures Valid()
    {
      this.len := len;
      this.rcm := rcm;
      grav := None;
      comps := [];
      activeComps := [];
      gauge := GaugeUnset;
      vars := [];
      mupper := 0;
      mlower := 0;
    }

    /** Sets each variable's index to its new row, read from the inverse
        permutation (lines 657-662, corrected). */
    method Reindex(perm: seq<int>, inv: seq<int>)
      requires IsInversePair(perm, inv, |vars|)
      modifies this
      ensures vars == Reindexed(old(vars), perm, inv)
      ensures grav == old(grav) && comps == old(comps) && activeComps == old(activeComps) && gauge == old(gauge)
      ensures mupper == old(mupper) && mlower == old(mlower)
    {
      ghost var rv := vars;
      var vs := vars;
      for i := 0 to |vs|
        invariant |vs| == |rv|
        invariant forall k :: 0 <= k < |rv| ==> vs[k] == if k < i then rv[k].(index := inv[k] - 1) else rv[k]
      {
        vs := vs[i := vs[i].(index := inv[i] - 1)];
      }
      vars := vs;
    }

    /** Scans the rows of the reordered Jacobian, row `i` holding the
        variable `perm[i] - 1` and each dependency `d` landing in column
        `perm_inv[d] - 1`, and keeps the largest forward and backward
        offsets (lines 670-699). */
    method MeasureBands(perm: seq<int>, inv: seq<int>)
      requires IsInversePair(perm, inv, |vars|) && VarsInRange(vars)
      modifies this
      ensures vars == old(vars)
      ensures DepsIn(Graph(vars), |vars|)
      ensures mupper == UpperBand(Permuted(Graph(vars), perm, inv))
      ensures mlower == LowerBand(Permuted(Graph(vars), perm, inv))
      ensures grav == old(grav) && comps == old(comps) && activeComps == old(activeComps) && gauge == old(gauge)
    {
      GraphInRange(vars);
      mupper, mlower := Bands(Graph(vars), perm, inv);
    }

    /** `_nc_hipert_first_order_arrange_vars`: obtains the reordering of the
        dependency graph, moves every variable's index to its new row and
        stores the bandwidths of the reordered Jacobian. */
    method ArrangeVars()
      requires VarsInRange(vars)
      modifies this
      ensures var order := rcm(Graph(old(vars)));
        var l := Arranged(old(vars), order.0, order.1);
        vars == l.vars && mupper == l.mupper && mlower == l.mlower
      ensures grav == old(grav) && comps == old(comps) && activeComps == old(activeComps) && gauge == old(gauge)
    {
      ghost var rv := vars;
      var order := rcm(Graph(vars));
      var perm, inv := order.0, order.1;
      Reindex(perm, inv);
      ReindexedGraph(rv, perm, inv);
      MeasureBands(perm, inv);
      ArrangedParts(rv, perm, inv, Arranged(rv, perm, inv));
    }

    /** The assembly part of `_nc_hipert_first_order_prepare_internal`
        (lines 719-756): the gravitation variables with lists padded by 0,
        then each occupied slot's variables with lists padded by the
        block's offset, while the slot's stress-energy table, padded the
        same way, is appended to the aggregated one. */
    method Assemble(g: GravReply) returns (t: Tables)
      modifies this
      ensures vars == Assembled(g, Answers(comps)) && t == AssembledTables(g, Answers(comps))
      ensures grav == old(grav) && comps == old(comps) && activeComps == old(activeComps) && gauge == old(gauge)
      ensures mupper == old(mupper) && mlower == old(mlower)
    {
      var vs, ts := AssembleFrom(g, comps);
      vars := vs;
      t := Tables(g.info, ts);
    }

    /** The resolution part of `_nc_hipert_first_order_prepare_internal`
        (lines 818-822): every variable's list resolved in place, in order;
        the first fatal error ends the run. */
    method SolveAll(t: Tables) returns (err: Option<Fatal>)
      modifies this
      ensures match ResolveTable(t, old(vars))
        case Failure(e) => err == Some(e)
        case Success(rv) => err.None? && vars == rv
      ensures grav == old(grav) && comps == old(comps) && activeComps == old(activeComps) && gauge == old(gauge)
      ensures mupper == old(mupper) && mlower == old(mlower)
    {
      var res := ResolveAll(t, vars);
      match res
      case Failure(e) =>
        err := Some(e);
      case Success(rv) =>
        vars := rv;
        err := None;
    }

    /** `_nc_hipert_first_order_prepare_internal`: with a gravitation
        object, rebuilds the variable table, resolves every list against
        the gravitation table and the aggregated stress-energy table, and
        reorders; without one it does nothing. */
    method PrepareInternal() returns (st: Status)
      requires Valid()
      modifies this
      ensures Valid()
      ensures grav == old(grav) && comps == old(comps) && activeComps == old(activeComps) && gauge == old(gauge)
      ensures Prepared(rcm, grav, comps, st, Layout(vars, mupper, mlower), old(Layout(vars, mupper, mlower)))
    {
      if grav.None? {
        return Done;
      }
      var g := Answer(grav.value);
      var t := Assemble(g);
      var err := SolveAll(t);
      if err.Some? {
        return Aborted(err.value);
      }
      ResolvedTable(g, Answers(comps), vars);
      ArrangeVars();
      st := Done;
    }
  
    /** Lines 1034-1039: the component takes its free slot, joins the
        active list, is switched to the object's gauge and the system is
        rebuilt. */
    method Occupy(c: Comp) returns (st: Status)
      requires Valid() && |comps| == len
      requires !c.isGrav && 0 <= c.id < len && comps[c.id].None? && WellFormedComp(c.reply(gauge))
      modifies this
      ensures Valid()
      ensures comps == old(comps)[c.id := Some(c.(gauge := old(gauge)))]
      ensures activeComps == old(activeComps) + [c.id] && grav == old(grav) && gauge == old(gauge)
      ensures Prepared(rcm, grav, comps, st, Layout(vars, mupper, mlower), old(Layout(vars, mupper, mlower)))
    {
      AddKeepsValid(len, comps, activeComps, gauge, c);
      comps := comps[c.id := Some(c.(gauge := gauge))];
      activeComps := activeComps + [c.id];
      st := PrepareInternal();
    }

    /** `nc_hipert_first_order_add_comp`: a gravitation object is refused,
        so is an id outside the background variables; the slot array grows
        to one slot per background variable; a slot already occupied makes
        the call a no-op; otherwise the component is registered. */
    method AddComp(c: Comp) returns (st: Status)
      requires Valid()
      requires !c.isGrav && 0 <= c.id < len && !(c.id < |comps| && comps[c.id].Some?) ==>
        WellFormedComp(c.reply(gauge))
      modifies this
      ensures Valid()
      ensures c.isGrav ==> st == Aborted(GravityAsComponent) && unchanged(this)
      ensures !c.isGrav && !(0 <= c.id < len) ==> st == Aborted(IdOutOfRange(c.id)) && unchanged(this)
      ensures !c.isGrav && 0 <= c.id < len && c.id < |old(comps)| && old(comps)[c.id].Some? ==>
        st == Ignored && unchanged(this)
      ensures !c.isGrav && 0 <= c.id < len && !(c.id < |old(comps)| && old(comps)[c.id].Some?) ==>
        comps == Resized(old(comps), len)[c.id := Some(c.(gauge := old(gauge)))] &&
        activeComps == old(activeComps) + [c.id] &&
        grav == old(grav) && gauge == old(gauge) &&
        Prepared(rcm, grav, comps, st, Layout(vars, mupper, mlower), old(Layout(vars, mupper, mlower)))
    {
      if c.isGrav {
        return Aborted(GravityAsComponent);
      }
      if !(0 <= c.id < len) {
        return Aborted(IdOutOfRange(c.id));
      }
      GrowSlots();
      if comps[c.id].Some? {
        return Ignored;
      }
      st := Occupy(c);
    }

    /** Line 1029: the slot array grows to one slot per background variable. */
    method GrowSlots()
      requires Valid()
      modifies this
      ensures Valid() && |old(comps)| <= len
      ensures comps == Resized(old(comps), len)
      ensures old(comps) != [] ==> unchanged(this)
      ensures grav == old(grav) && activeComps == old(activeComps) && gauge == old(gauge)
      ensures vars == old(vars) && mupper == old(mupper) && mlower == old(mlower)
    {
      ResizeKeepsValid(len, comps, activeComps, gauge);
      if |comps| < len {
        comps := Resized(comps, len);
      } else {
        assert Resized(comps, len) == comps;
      }
    }

    /** `nc_hipert_first_order_set_gauge`: the same gauge is a no-op;
        otherwise the gravitation object and every occupied slot are
        switched to the new gauge, the object takes it and the system is
        rebuilt. */
    method SetGauge(ga: Gauge) returns (st: Status)
      requires Valid()
      requires grav.Some? ==> WellFormedGrav(grav.value.reply(ga))
      requires forall s :: 0 <= s < |comps| && comps[s].Some? ==> WellFormedComp(comps[s].value.reply(ga))
      modifies this
      ensures Valid()
      ensures ga == old(gauge) ==> st == Done && unchanged(this)
      ensures ga != old(gauge) ==>
        gauge == ga &&
        grav == (match old(grav) case None => None case Some(g) => Some(g.(gauge := ga))) &&
        comps == Regauged(old(comps), ga) && activeComps == old(activeComps) &&
        Prepared(rcm, grav, comps, st, Layout(vars, mupper, mlower), old(Layout(vars, mupper, mlower)))
    {
      if ga == gauge {
        return Done;
      }
      SwitchGauge(ga);
      st := PrepareInternal();
    }

    /** Lines 846-858: the gravitation object and every occupied slot are
        switched to gauge `ga`, and the object takes it. */
    method SwitchGauge(ga: Gauge)
      requires Valid()
      requires grav.Some? ==> WellFormedGrav(grav.value.reply(ga))
      requires forall s :: 0 <= s < |comps| && comps[s].Some? ==> WellFormedComp(comps[s].value.reply(ga))
      modifies this
      ensures Valid()
      ensures gauge == ga && grav == (match old(grav) case None => None case Some(g) => Some(g.(gauge := ga)))
      ensures comps == Regauged(old(comps), ga) && activeComps == old(activeComps)
      ensures vars == old(vars) && mupper == old(mupper) && mlower == old(mlower)
    {
      RegaugeKeepsValid(len, grav, comps, activeComps, gauge, ga);
      if grav.Some? {
        grav := Some(grav.value.(gauge := ga));
      }
      comps := RegaugeAll(comps, ga);
      gauge := ga;
    }

    /** `nc_hipert_first_order_set_grav`: the current gravitation object is
        dropped; a new one is switched to the object's gauge and the system
        is rebuilt. Setting none does not rebuild: the table of the previous
        object stays. */
    method SetGrav(g: Option<Grav>) returns (st: Status)
      requires Valid()
      requires g.Some? ==> WellFormedGrav(g.value.reply(gauge))
      modifies this
      ensures Valid()
      ensures comps == old(comps) && activeComps == old(activeComps) && gauge == old(gauge)
      ensures g.None? ==> grav.None? && st == Done && vars == old(vars) && mupper == old(mupper) && mlower == old(mlower)
      ensures g.Some? ==> grav == Some(g.value.(gauge := gauge)) && Prepared(rcm, grav, comps, st, Layout(vars, mupper, mlower), old(Layout(vars, mupper, mlower)))
    {
      grav := None;
      if g.Some? {
        grav := Some(g.value.(gauge := gauge));
        st := PrepareInternal();
      } else {
        st := Done;
      }
    }
  }
}
