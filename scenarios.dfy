/** Small systems worked through end to end: what a rebuild and the
    registry produce for them. */
module Scenarios {
  import opened Outcomes
  import opened Sorting
  import opened Padding
  import opened Resolver
  import opened Bandwidth
  import opened Assembly
  import opened FirstOrder

  /** A list that is already resolved resolves to itself. */
  lemma ResolveResolved(t: Tables, s: seq<int>)
    requires NoPlaceholders(s) && StrictlySorted(s)
    ensures Resolve(t, s, 0) == Success(s)
  {
    SortUniqueOfStrict(s);
  }

  /** A list holding one placeholder whose expansion is resolved resolves
      to that expansion after one round. */
  lemma ResolveSingleCode(t: Tables, s: seq<int>)
    requires |s| == 1 && IsCode(s[0])
    requires NoPlaceholders(Expansion(t, s[0])) && StrictlySorted(Expansion(t, s[0]))
    ensures Resolve(t, s, 0) == Success(Expansion(t, s[0]))
  {
    var c := s[0];
    assert s[..|s| - 1] == [] && s == [c];
    assert Placeholders(s) == Placeholders(s[..0]) + [c] == [c];
    assert Concretes(s) == Concretes(s[..0]) == [];
    assert ExpandAll(t, [c]) == Expansion(t, c) by {
      assert [c][..0] == [];
    }
    assert !NoPlaceholders(s) by {
      assert s[0] < 0;
    }
    assert Round(t, s) == Expansion(t, c);
    SortUniqueOfStrict(Expansion(t, c));
  }

  lemma ResolveTablePair(t: Tables, v: Var, w: Var, dv: seq<int>, dw: seq<int>)
    requires Resolve(t, v.deps, 0) == Success(dv) && Resolve(t, w.deps, 0) == Success(dw)
    ensures ResolveTable(t, [v, w]) == Success([v.(deps := dv), w.(deps := dw)])
  {
    ResolveTableSnoc(t, [], [], v, dv);
    assert [] + [v] == [v] && [] + [v.(deps := dv)] == [v.(deps := dv)];
    ResolveTableSnoc(t, [v], [v.(deps := dv)], w, dw);
    assert [v] + [w] == [v, w] && [v.(deps := dv)] + [w.(deps := dw)] == [v.(deps := dv), w.(deps := dw)];
  }

  /** A lone variable without dependencies lands in row 0 and leaves both
      bandwidths at 0, whatever the reordering. */
  lemma ArrangedLone(v: Var, perm: seq<int>, inv: seq<int>, l: Layout)
    requires v.deps == [] && IsInversePair(perm, inv, 1) && VarsInRange([v])
    requires l == Arranged([v], perm, inv)
    ensures l.vars == [v.(index := 0)] && l.mupper == 0 && l.mlower == 0
  {
    assert perm[0] == 1 && inv[0] == 1;
    GraphInRange([v]);
    var rows := Permuted(Graph([v]), perm, inv);
    assert rows[0] == PermutedRow(Graph([v]), perm, inv, 0) == [];
    assert rows == [[]] && rows[..0] == [];
    assert UpperBand(rows) == RowUpper([], 0, UpperBand([])) == 0;
    assert LowerBand(rows) == RowLower([], 0, LowerBand([])) == 0;
    assert Reindexed([v], perm, inv)[0] == v.(index := 0);
  }

  /** The table of one gravitation variable without dependencies, resolved. */
  lemma SingleGravityTable(g: GravReply, comps: seq<Option<CompReply>>)
    requires g.deps == [[]] && GravInfoBounded(g.info, 1) && comps == []
    ensures WellFormedGrav(g) && SlotsWellFormed(comps)
    ensures Assembled(g, comps) == [Var(GRAV_SRC, 0, [])]
    ensures ResolveTable(AssembledTables(g, comps), Assembled(g, comps)) == Success([Var(GRAV_SRC, 0, [])])
  {
    var t := AssembledTables(g, comps);
    var v := Var(GRAV_SRC, 0, []);
    PaddedByZero(g.deps[0]);
    assert Assembled(g, comps) == [v];
    ResolveResolved(t, []);
    ResolveTableSnoc(t, [], [], v, []);
    assert [] + [v] == [v];
  }

  /** One gravitation variable with no dependencies and no components: the
      table holds that variable alone at index 0 and both bandwidths are 0,
      whatever the reordering routine. */
  lemma SingleGravityVariable(rcm: Reorderer, g: GravReply, comps: seq<Option<CompReply>>) returns (l: Layout)
    requires g.deps == [[]] && GravInfoBounded(g.info, 1) && comps == []
    ensures WellFormedGrav(g) && SlotsWellFormed(comps)
    ensures Rebuilt(rcm, g, comps) == Success(l)
    ensures l.vars == [Var(GRAV_SRC, 0, [])] && l.mupper == 0 && l.mlower == 0
  {
    var rv := [Var(GRAV_SRC, 0, [])];
    SingleGravityTable(g, comps);
    RebuiltOfResolved(rcm, g, comps, rv);
    var order := rcm(Graph(rv));
    l := Arranged(rv, order.0, order.1);
    ArrangedLone(rv[0], order.0, order.1, l);
  }

  /** The layout of two slots of one variable each, without gravitation variables. */
  lemma TwoSlotLayout(g: GravReply, ca: CompReply, cb: CompReply, comps: seq<Option<CompReply>>)
    requires g.deps == [] && comps == [Some(ca), Some(cb)] && |ca.deps| == 1 && |cb.deps| == 1
    ensures Assembled(g, comps) == [Var(0, 0, Padded(ca.deps[0], 0)), Var(1, 1, Padded(cb.deps[0], 1))]
    ensures AggInfo(comps, 0) == AppendInfo(AppendInfo(EmptyTScalarInfo, PadInfo(ca.tinfo, 0)), PadInfo(cb.tinfo, 1))
  {
    assert comps[..1] == [Some(ca)] && comps[..1][..0] == [];
    assert CompBlocks(comps[..1], 0) == [Var(0, 0, Padded(ca.deps[0], 0))];
    assert AggInfo(comps[..1], 0) == AppendInfo(EmptyTScalarInfo, PadInfo(ca.tinfo, 0));
    assert comps[..|comps| - 1] == comps[..1];
  }

  /** The table of the two mutually dependent components. */
  lemma MutualVars(g: GravReply, ca: CompReply, cb: CompReply, comps: seq<Option<CompReply>>)
    requires g.deps == [] && comps == [Some(ca), Some(cb)]
    requires ca.deps == [[DP]] && cb.deps == [[DRHO]]
    ensures Assembled(g, comps) == [Var(0, 0, [DP]), Var(1, 1, [DRHO])]
  {
    TwoSlotLayout(g, ca, cb, comps);
    PaddedAt(ca.deps[0], 0, 0);
    PaddedAt(cb.deps[0], 1, 0);
    assert Padded(ca.deps[0], 0) == [DP] && Padded(cb.deps[0], 1) == [DRHO];
  }

  /** The aggregated lists of the two mutually dependent components. */
  lemma MutualTables(g: GravReply, ca: CompReply, cb: CompReply, comps: seq<Option<CompReply>>)
    requires g.deps == [] && comps == [Some(ca), Some(cb)] && |ca.deps| == 1 && |cb.deps| == 1
    requires ca.tinfo == TScalarInfo([0], [], [], [])
    requires cb.tinfo == TScalarInfo([], [], [0], [])
    ensures AssembledTables(g, comps).tsinfo.drho == [0] && AssembledTables(g, comps).tsinfo.dp == [1]
  {
    TwoSlotLayout(g, ca, cb, comps);
    var pa, pb := PadInfo(ca.tinfo, 0), PadInfo(cb.tinfo, 1);
    PaddedByZero(ca.tinfo.drho);
    PaddedAt(cb.tinfo.dp, 1, 0);
    assert pa.drho == [0] && pa.dp == [];
    assert pb.drho == [] && pb.dp == [1];
  }

  /** The table and aggregated lists of the two mutually dependent components. */
  lemma MutualLayout(g: GravReply, ca: CompReply, cb: CompReply, comps: seq<Option<CompReply>>)
    requires g.deps == [] && comps == [Some(ca), Some(cb)]
    requires ca.deps == [[DP]] && ca.tinfo == TScalarInfo([0], [], [], [])
    requires cb.deps == [[DRHO]] && cb.tinfo == TScalarInfo([], [], [0], [])
    ensures Assembled(g, comps) == [Var(0, 0, [DP]), Var(1, 1, [DRHO])]
    ensures AssembledTables(g, comps).tsinfo.drho == [0] && AssembledTables(g, comps).tsinfo.dp == [1]
  {
    MutualVars(g, ca, cb, comps);
    MutualTables(g, ca, cb, comps);
  }

  /** Each of the two variables resolves to the other one. */
  lemma MutualResolution(t: Tables, a: seq<Var>)
    requires |a| == 2 && |a[0].deps| == 1 && a[0].deps[0] == DP && |a[1].deps| == 1 && a[1].deps[0] == DRHO
    requires |t.tsinfo.drho| == 1 && t.tsinfo.drho[0] == 0 && |t.tsinfo.dp| == 1 && t.tsinfo.dp[0] == 1
    ensures ResolveTable(t, a) == Success([a[0].(deps := t.tsinfo.dp), a[1].(deps := t.tsinfo.drho)])
  {
    ResolveSingleCode(t, a[0].deps);
    ResolveSingleCode(t, a[1].deps);
    ResolveTablePair(t, a[0], a[1], t.tsinfo.dp, t.tsinfo.drho);
    assert a == [a[0], a[1]];
  }

  /** Whatever the reordering, two variables that depend on each other
      form the two-node complete graph, whose bandwidths are (1, 1). */
  lemma TwoCycleArranged(rv: seq<Var>, perm: seq<int>, inv: seq<int>, l: Layout)
    requires |rv| == 2 && rv[0].deps == [1] && rv[1].deps == [0] && IsInversePair(perm, inv, 2)
    requires l == Arranged(rv, perm, inv)
    ensures |l.vars| == 2 && l.vars[0].src == rv[0].src && l.vars[1].src == rv[1].src
    ensures l.vars[0].deps == [1] && l.vars[1].deps == [0]
    ensures l.vars[0].index != l.vars[1].index
    ensures l.mupper == 1 && l.mlower == 1
  {
    ArrangedIndices(rv, perm, inv, l);
    ArrangedBands(rv, perm, inv, l);
    ArrangedBandsAttained(rv, perm, inv, l);
    assert 1 in l.vars[0].deps && 0 in l.vars[1].deps;
  }

  /** A rebuild whose table resolves is the arrangement of the resolved table. */
  lemma RebuiltOfResolved(rcm: Reorderer, g: GravReply, comps: seq<Option<CompReply>>, rv: seq<Var>)
    requires WellFormedGrav(g) && SlotsWellFormed(comps)
    requires ResolveTable(AssembledTables(g, comps), Assembled(g, comps)) == Success(rv)
    ensures VarsInRange(rv) && IsInversePair(rcm(Graph(rv)).0, rcm(Graph(rv)).1, |rv|)
    ensures Rebuilt(rcm, g, comps) == Success(Arranged(rv, rcm(Graph(rv)).0, rcm(Graph(rv)).1))
  {
    ResolvedTable(g, comps, rv);
  }

  /** The providers of the two mutually dependent components are well formed. */
  lemma MutualWellFormed(g: GravReply, ca: CompReply, cb: CompReply, comps: seq<Option<CompReply>>)
    requires g == GravReply([], GravInfo([], [], [], [])) && comps == [Some(ca), Some(cb)]
    requires ca.deps == [[DP]] && ca.tinfo == TScalarInfo([0], [], [], [])
    requires cb.deps == [[DRHO]] && cb.tinfo == TScalarInfo([], [], [0], [])
    ensures WellFormedGrav(g) && SlotsWellFormed(comps)
  {
    assert WellFormedComp(ca) && WellFormedComp(cb);
    assert comps[0] == Some(ca) && comps[1] == Some(cb);
  }

  /** The resolved table of the two mutually dependent components. */
  lemma MutualResolved(g: GravReply, ca: CompReply, cb: CompReply, comps: seq<Option<CompReply>>) returns (rv: seq<Var>)
    requires g == GravReply([], GravInfo([], [], [], [])) && comps == [Some(ca), Some(cb)]
    requires ca.deps == [[DP]] && ca.tinfo == TScalarInfo([0], [], [], [])
    requires cb.deps == [[DRHO]] && cb.tinfo == TScalarInfo([], [], [0], [])
    ensures WellFormedGrav(g) && SlotsWellFormed(comps)
    ensures ResolveTable(AssembledTables(g, comps), Assembled(g, comps)) == Success(rv)
    ensures |rv| == 2 && rv[0].src == 0 && rv[1].src == 1 && rv[0].deps == [1] && rv[1].deps == [0]
  {
    MutualWellFormed(g, ca, cb, comps);
    MutualLayout(g, ca, cb, comps);
    var t := AssembledTables(g, comps);
    var a := Assembled(g, comps);
    assert a == [Var(0, 0, [DP]), Var(1, 1, [DRHO])];
    assert t.tsinfo.dp == [1] && t.tsinfo.drho == [0];
    MutualResolution(t, a);
    rv := [Var(0, 0, [1]), Var(1, 1, [0])];
    assert rv == [a[0].(deps := t.tsinfo.dp), a[1].(deps := t.tsinfo.drho)];
  }

  /** Two components, one variable each, each depending on the other
      through a placeholder: the first on the aggregated `dp` list, which
      only the second fills, the second on `drho`, which only the first
      fills. Each resolved list holds exactly the other variable, and,
      whatever the reordering, the Jacobian is the two-node complete graph
      with bandwidths (1, 1). */
  lemma MutuallyDependentComponents(rcm: Reorderer, g: GravReply, ca: CompReply, cb: CompReply,
                                    comps: seq<Option<CompReply>>) returns (l: Layout)
    requires g == GravReply([], GravInfo([], [], [], [])) && comps == [Some(ca), Some(cb)]
    requires ca.deps == [[DP]] && ca.tinfo == TScalarInfo([0], [], [], [])
    requires cb.deps == [[DRHO]] && cb.tinfo == TScalarInfo([], [], [0], [])
    ensures WellFormedGrav(g) && SlotsWellFormed(comps)
    ensures Rebuilt(rcm, g, comps) == Success(l)
    ensures |l.vars| == 2 && l.vars[0].src == 0 && l.vars[1].src == 1
    ensures l.vars[0].deps == [1] && l.vars[1].deps == [0]
    ensures l.vars[0].index != l.vars[1].index
    ensures l.mupper == 1 && l.mlower == 1
  {
    var rv := MutualResolved(g, ca, cb, comps);
    RebuiltOfResolved(rcm, g, comps, rv);
    var order := rcm(Graph(rv));
    l := Arranged(rv, order.0, order.1);
    TwoCycleArranged(rv, order.0, order.1, l);
  }

  /** A gravitation variable that depends on `phi` while `phi` expands to
      itself: the rebuild is rejected at the recursion cap instead of
      running forever. */
  lemma SelfExpandingGravityRejected(rcm: Reorderer, info: GravInfo)
    requires info.phi == [PHI] && GravInfoBounded(info, 1)
    ensures WellFormedGrav(GravReply([[PHI]], info)) && SlotsWellFormed([])
    ensures Rebuilt(rcm, GravReply([[PHI]], info), []) == Failure(TooManyRecursionLevels)
  {
    var g := GravReply([[PHI]], info);
    var t := AssembledTables(g, []);
    var a := Assembled(g, []);
    assert Padded([PHI], 0) == [PHI];
    assert a == [Var(GRAV_SRC, 0, [PHI])];
    SelfExpansionRejected(t, 0);
    assert a[..0] == [];
    assert ResolveTable(t, a) == Failure(TooManyRecursionLevels);
  }

  /** Registering the same id twice: the second call is ignored and the
      registry keeps one entry for that id. Neither the second provider nor
      one with an id past the table is asked for its lists, so theirs may be
      anything. */
  method DuplicateComponentIgnored(rcm: Reorderer, reply: Gauge -> CompReply, other: Gauge -> CompReply)
    returns (first: Status, second: Status, third: Status, active: seq<int>)
    requires forall ga :: WellFormedComp(reply(ga))
    ensures first == Done && second == Ignored && third == Aborted(IdOutOfRange(7)) && active == [3]
  {
    var fo := new HIPertFirstOrder(5, rcm);
    first := fo.AddComp(Comp(3, false, GaugeCode(0), reply));
    second := fo.AddComp(Comp(3, false, GaugeCode(0), other));
    third := fo.AddComp(Comp(7, false, GaugeCode(0), other));
    active := fo.activeComps;
  }
}
