/** The variable table that `_nc_hipert_first_order_prepare_internal` builds:
    the gravitation variables first, then each registered component's
    variables in slot order, each block's dependency lists shifted by the
    number of variables placed before it; the components' stress-energy
    tables are shifted the same way and concatenated. */
module Assembly {
  import opened Outcomes
  import opened Padding
  import opened Resolver
  import opened Bandwidth

  /** What the gravitation object reports for its current gauge: the
      dependency list of each of its dynamical variables (local indices and
      placeholders) and its potentials' table. */
  datatype GravReply = GravReply(deps: seq<seq<int>>, info: GravInfo)

  /** What a component reports for its current gauge: the dependency list of
      each of its dynamical variables and its stress-energy table. */
  datatype CompReply = CompReply(deps: seq<seq<int>>, tinfo: TScalarInfo)

  /** NcHIPertFirstOrderVar: owner (`src`, -1 for gravitation), position and dependencies. */
  datatype Var = Var(src: int, index: int, deps: seq<int>)

  const GRAV_SRC: int := -1

  predicate AllBounded(lists: seq<seq<int>>, n: int)
  {
    forall i :: 0 <= i < |lists| ==> Bounded(lists[i], n)
  }

  /** A gravitation object only names its own variables by index. */
  predicate WellFormedGrav(g: GravReply)
  {
    AllBounded(g.deps, |g.deps|) && GravInfoBounded(g.info, |g.deps|)
  }

  /** A component only names its own variables by (local) index. */
  predicate WellFormedComp(c: CompReply)
  {
    AllBounded(c.deps, |c.deps|) && InfoBounded(c.tinfo, |c.deps|)
  }

  /** Number of variables of the occupied slots. */
  function NdynSum(comps: seq<Option<CompReply>>): nat
  {
    if comps == [] then 0
    else
      var last := match comps[|comps| - 1] case None => 0 case Some(c) => |c.deps|;
      NdynSum(comps[..|comps| - 1]) + last
  }

  /** The variables of one provider, owner `src`, placed from `pad` on,
      each with its list padded by `pad`. */
  function Block(deps: seq<seq<int>>, src: int, pad: int): seq<Var>
  {
    seq(|deps|, j requires 0 <= j < |deps| => Var(src, pad + j, Padded(deps[j], pad)))
  }

  /** The gravitation block: one variable per gravitation degree of freedom,
      owner -1, padded by 0. */
  function GravBlock(g: GravReply): seq<Var>
  {
    Block(g.deps, GRAV_SRC, 0)
  }

  /** The block of the component in slot `slot`, placed at `pad`. */
  function CompBlock(c: CompReply, slot: int, pad: int): seq<Var>
  {
    Block(c.deps, slot, pad)
  }

  /** The component blocks of the slots `comps`, the first placed at `base`,
      each next one right after the previous one. */
  function CompBlocks(comps: seq<Option<CompReply>>, base: int): seq<Var>
  {
    if comps == [] then []
    else
      var prev := CompBlocks(comps[..|comps| - 1], base);
      match comps[|comps| - 1]
      case None => prev
      case Some(c) => prev + CompBlock(c, |comps| - 1, base + |prev|)
  }

  /** The aggregated stress-energy table: each component's table padded by
      its block's offset, appended in slot order. */
  function AggInfo(comps: seq<Option<CompReply>>, base: int): TScalarInfo
  {
    if comps == [] then EmptyTScalarInfo
    else
      var prefix := comps[..|comps| - 1];
      match comps[|comps| - 1]
      case None => AggInfo(prefix, base)
      case Some(c) => AppendInfo(AggInfo(prefix, base), PadInfo(c.tinfo, base + |CompBlocks(prefix, base)|))
  }

  /** One more slot: its block (if occupied) lands right after the previous
      blocks and its padded table is appended to the aggregate. */
  lemma CompBlocksStep(comps: seq<Option<CompReply>>, base: int, i: int)
    requires 0 <= i < |comps|
    ensures comps[i].None? ==>
      CompBlocks(comps[..i + 1], base) == CompBlocks(comps[..i], base) &&
      AggInfo(comps[..i + 1], base) == AggInfo(comps[..i], base)
    ensures comps[i].Some? ==>
      var prev := CompBlocks(comps[..i], base);
      CompBlocks(comps[..i + 1], base) == prev + CompBlock(comps[i].value, i, base + |prev|) &&
      AggInfo(comps[..i + 1], base) == AppendInfo(AggInfo(comps[..i], base), PadInfo(comps[i].value.tinfo, base + |prev|))
  {
    assert comps[..i + 1][..i] == comps[..i];
  }

  /** The blocks alone, one more slot. */
  lemma BlocksStep(comps: seq<Option<CompReply>>, base: int, i: int)
    requires 0 <= i < |comps|
    ensures comps[i].None? ==> CompBlocks(comps[..i + 1], base) == CompBlocks(comps[..i], base)
    ensures comps[i].Some? ==>
      var prev := CompBlocks(comps[..i], base);
      CompBlocks(comps[..i + 1], base) == prev + CompBlock(comps[i].value, i, base + |prev|)
  {
    assert comps[..i + 1][..i] == comps[..i];
  }

  /** The variable table before resolution. */
  function Assembled(g: GravReply, comps: seq<Option<CompReply>>): seq<Var>
  {
    GravBlock(g) + CompBlocks(comps, |g.deps|)
  }

  /** The state of the assembly loops after the first `i` slots: the table
      so far and the aggregated stress-energy table so far. */
  ghost predicate AssembleInv(g: GravReply, ans: seq<Option<CompReply>>, i: nat, vs: seq<Var>, ts: TScalarInfo)
  {
    i <= |ans| && vs == GravBlock(g) + CompBlocks(ans[..i], |g.deps|) && ts == AggInfo(ans[..i], |g.deps|)
  }

  /** One more slot: an empty one changes nothing; an occupied one appends
      its block at the end of the table and its table, padded by the
      table's length, to the aggregate. */
  lemma AssembleAdvance(g: GravReply, ans: seq<Option<CompReply>>, i: nat, vs: seq<Var>, ts: TScalarInfo)
    requires i < |ans| && AssembleInv(g, ans, i, vs, ts)
    ensures ans[i].None? ==> AssembleInv(g, ans, i + 1, vs, ts)
    ensures ans[i].Some? ==> AssembleInv(g, ans, i + 1,
      vs + Block(ans[i].value.deps, i, |vs|), AppendInfo(ts, PadInfo(ans[i].value.tinfo, |vs|)))
  {
    var base := |g.deps|;
    CompBlocksStep(ans, base, i);
    if ans[i].Some? {
      var prev := CompBlocks(ans[..i], base);
      assert |GravBlock(g)| == base;
      assert |vs| == base + |prev|;
      AppendAssoc(GravBlock(g), prev, CompBlock(ans[i].value, i, base + |prev|));
    }
  }

  /** The tables resolution reads: gravitation's and the aggregated one. */
  function AssembledTables(g: GravReply, comps: seq<Option<CompReply>>): Tables
  {
    Tables(g.info, AggInfo(comps, |g.deps|))
  }

  /** Resolution of every variable of the table, in order, stopping at the
      first fatal error. */
  function ResolveTable(t: Tables, vs: seq<Var>): Result<seq<Var>, Fatal>
  {
    if vs == [] then Success([])
    else
      match ResolveTable(t, vs[..|vs| - 1])
      case Failure(e) => Failure(e)
      case Success(p) =>
        match Resolve(t, vs[|vs| - 1].deps, 0)
        case Failure(e) => Failure(e)
        case Success(d) => Success(p + [vs[|vs| - 1].(deps := d)])
  }

  /** One more variable resolved successfully extends the resolved table. */
  lemma ResolveTableSnoc(t: Tables, vs: seq<Var>, p: seq<Var>, v: Var, d: seq<int>)
    requires ResolveTable(t, vs) == Success(p) && Resolve(t, v.deps, 0) == Success(d)
    ensures ResolveTable(t, vs + [v]) == Success(p + [v.(deps := d)])
  {
    var ws := vs + [v];
    assert ws[..|ws| - 1] == vs && ws[|ws| - 1] == v;
  }

  lemma ResolveTableStep(t: Tables, vs: seq<Var>, i: int, p: seq<Var>, d: seq<int>)
    requires 0 <= i < |vs| && ResolveTable(t, vs[..i]) == Success(p) && Resolve(t, vs[i].deps, 0) == Success(d)
    ensures ResolveTable(t, vs[..i + 1]) == Success(p + [vs[i].(deps := d)])
  {
    TakeSnoc(vs, i);
    ResolveTableSnoc(t, vs[..i], p, vs[i], d);
  }

  /** A variable whose own resolution fails makes the table's fail. */
  lemma ResolveTableFailsAt(t: Tables, vs: seq<Var>, i: int, p: seq<Var>, e: Fatal)
    requires 0 <= i < |vs| && ResolveTable(t, vs[..i]) == Success(p) && Resolve(t, vs[i].deps, 0) == Failure(e)
    ensures ResolveTable(t, vs) == Failure(e)
  {
    assert vs[..i + 1][..i] == vs[..i];
    ResolveTableFailFast(t, vs, i + 1, e);
  }

  /** The dependency lists handed to the reordering routine. */
  function Graph(vs: seq<Var>): seq<seq<int>>
  {
    seq(|vs|, i requires 0 <= i < |vs| => vs[i].deps)
  }

  /** The table with each variable's index rewritten to its new row. */
  function Reindexed(vs: seq<Var>, perm: seq<int>, inv: seq<int>): seq<Var>
    requires IsInversePair(perm, inv, |vs|)
  {
    seq(|vs|, i requires 0 <= i < |vs| => vs[i].(index := NewIndex(perm, inv, i)))
  }

  /* ------------------------------------------------------------------ */

  lemma {:induction false} CompBlocksSize(comps: seq<Option<CompReply>>, base: int)
    ensures |CompBlocks(comps, base)| == NdynSum(comps)
  {
    if comps != [] {
      CompBlocksSize(comps[..|comps| - 1], base);
    }
  }

  /** The table has `grav_ndyn + Σ ndyn(comp)` variables over the occupied slots. */
  lemma AssembledSize(g: GravReply, comps: seq<Option<CompReply>>)
    ensures |Assembled(g, comps)| == |g.deps| + NdynSum(comps)
  {
    CompBlocksSize(comps, |g.deps|);
  }

  /** The gravitation variables come first, owned by -1, with their own lists. */
  lemma GravVarsFirst(g: GravReply, comps: seq<Option<CompReply>>, i: int)
    requires 0 <= i < |g.deps|
    ensures i < |Assembled(g, comps)|
    ensures Assembled(g, comps)[i] == Var(GRAV_SRC, i, g.deps[i])
  {
    PaddedByZero(g.deps[i]);
  }

  lemma {:induction false} NdynSumPrefix(comps: seq<Option<CompReply>>, s: int)
    requires 0 <= s < |comps|
    ensures NdynSum(comps[..s + 1]) == NdynSum(comps[..s]) +
      (match comps[s] case None => 0 case Some(c) => |c.deps|)
    ensures NdynSum(comps[..s + 1]) <= NdynSum(comps)
    decreases |comps|
  {
    assert comps[..s + 1][..s] == comps[..s];
    if s + 1 < |comps| {
      NdynSumPrefix(comps[..|comps| - 1], s);
      assert comps[..|comps| - 1][..s + 1] == comps[..s + 1];
      assert comps[..|comps| - 1][..s] == comps[..s];
    } else {
      assert comps[..s + 1] == comps;
    }
  }

  /** `a` is a prefix of `b`. */
  ghost predicate IsPrefix<T>(a: seq<T>, b: seq<T>)
  {
    |a| <= |b| && b[..|a|] == a
  }

  lemma PrefixTrans<T>(a: seq<T>, b: seq<T>, c: seq<T>)
    requires IsPrefix(a, b) && IsPrefix(b, c)
    ensures IsPrefix(a, c)
  {
    assert c[..|a|] == c[..|b|][..|a|];
  }

  /** The blocks of the first `k` slots come first in the blocks of all slots. */
  lemma {:induction false} CompBlocksPrefix(comps: seq<Option<CompReply>>, base: int, k: int)
    requires 0 <= k <= |comps|
    ensures IsPrefix(CompBlocks(comps[..k], base), CompBlocks(comps, base))
    decreases |comps| - k
  {
    if k == |comps| {
      assert comps[..k] == comps;
    } else {
      CompBlocksPrefix(comps, base, k + 1);
      BlocksStep(comps, base, k);
      var prev := CompBlocks(comps[..k], base);
      var next := CompBlocks(comps[..k + 1], base);
      assert IsPrefix(prev, next) by {
        if comps[k].Some? {
          var blk := CompBlock(comps[k].value, k, base + |prev|);
          assert next == prev + blk;
          assert next[..|prev|] == prev;
        }
      }
      PrefixTrans(prev, next, CompBlocks(comps, base));
    }
  }

  /** The variable `j` of the component in slot `s` sits at the slot's
      running offset plus `j`, is owned by `s`, and its list is padded by
      exactly that offset. */
  lemma CompBlocksAt(comps: seq<Option<CompReply>>, base: int, s: int, j: int)
    requires 0 <= s < |comps| && comps[s].Some? && 0 <= j < |comps[s].value.deps|
    ensures var off := NdynSum(comps[..s]);
      off + j < |CompBlocks(comps, base)| &&
      CompBlocks(comps, base)[off + j] == Var(s, base + off + j, Padded(comps[s].value.deps[j], base + off))
  {
    var prev := CompBlocks(comps[..s], base);
    var next := CompBlocks(comps[..s + 1], base);
    var c := comps[s].value;
    var blk := CompBlock(c, s, base + |prev|);
    CompBlocksSize(comps[..s], base);
    BlocksStep(comps, base, s);
    CompBlocksPrefix(comps, base, s + 1);
    BlockAt(c.deps, s, base + |prev|, j);
    JoinAt(CompBlocks(comps, base), prev, blk, next, j);
  }

  /** The entry `j` of a block appended to `prev`, seen in a sequence that
      starts with both. */
  lemma JoinAt<T>(all: seq<T>, prev: seq<T>, blk: seq<T>, next: seq<T>, j: int)
    requires next == prev + blk && IsPrefix(next, all) && 0 <= j < |blk|
    ensures |prev| + j < |all| && all[|prev| + j] == blk[j]
  {
    assert all[..|next|][|prev| + j] == all[|prev| + j];
  }

  lemma BlockAt(deps: seq<seq<int>>, src: int, pad: int, j: int)
    requires 0 <= j < |deps|
    ensures |Block(deps, src, pad)| == |deps|
    ensures Block(deps, src, pad)[j] == Var(src, pad + j, Padded(deps[j], pad))
  {
  }

  /** Component variables in terms of the whole table: blocks are laid out
      one after another at `grav_ndyn + Σ ndyn` of the slots before. */
  lemma CompVarPlacement(g: GravReply, comps: seq<Option<CompReply>>, s: int, j: int)
    requires 0 <= s < |comps| && comps[s].Some? && 0 <= j < |comps[s].value.deps|
    ensures var off := |g.deps| + NdynSum(comps[..s]);
      off + j < |Assembled(g, comps)| &&
      Assembled(g, comps)[off + j] == Var(s, off + j, Padded(comps[s].value.deps[j], off))
  {
    CompBlocksAt(comps, |g.deps|, s, j);
  }

  /** Every variable sits at its own index, and only the first `grav_ndyn`
      belong to gravitation; the others belong to an occupied slot. */
  lemma {:induction false} CompBlocksOwners(comps: seq<Option<CompReply>>, base: int)
    ensures forall i :: 0 <= i < |CompBlocks(comps, base)| ==>
      CompBlocks(comps, base)[i].index == base + i &&
      0 <= CompBlocks(comps, base)[i].src < |comps| &&
      comps[CompBlocks(comps, base)[i].src].Some?
  {
    if comps != [] {
      var prefix := comps[..|comps| - 1];
      CompBlocksOwners(prefix, base);
    }
  }

  lemma AssembledOwners(g: GravReply, comps: seq<Option<CompReply>>)
    ensures forall i :: 0 <= i < |Assembled(g, comps)| ==> Assembled(g, comps)[i].index == i
    ensures forall i :: 0 <= i < |Assembled(g, comps)| ==>
      (Assembled(g, comps)[i].src == GRAV_SRC <==> i < |g.deps|)
    ensures forall i :: |g.deps| <= i < |Assembled(g, comps)| ==>
      0 <= Assembled(g, comps)[i].src < |comps| && comps[Assembled(g, comps)[i].src].Some?
  {
    CompBlocksOwners(comps, |g.deps|);
    var a := Assembled(g, comps);
    forall i | |g.deps| <= i < |a|
      ensures a[i] == CompBlocks(comps, |g.deps|)[i - |g.deps|]
    {
    }
  }

  predicate SlotsWellFormed(comps: seq<Option<CompReply>>)
  {
    forall s :: 0 <= s < |comps| && comps[s].Some? ==> WellFormedComp(comps[s].value)
  }

  lemma BoundedConcat(a: seq<int>, b: seq<int>, n: int)
    requires Bounded(a, n) && Bounded(b, n)
    ensures Bounded(a + b, n)
  {
    forall i | 0 <= i < |a + b| && (a + b)[i] >= 0 ensures (a + b)[i] < n {
      if i >= |a| { assert (a + b)[i] == b[i - |a|]; }
    }
  }

  lemma PadInfoBounded(ts: TScalarInfo, pad: nat, n: int)
    requires InfoBounded(ts, n)
    ensures InfoBounded(PadInfo(ts, pad), pad + n)
  {
    PaddedBounded(ts.drho, pad, n);
    PaddedBounded(ts.rhoppv, pad, n);
    PaddedBounded(ts.dp, pad, n);
    PaddedBounded(ts.dPi, pad, n);
  }

  lemma SlotsWellFormedPrefix(comps: seq<Option<CompReply>>, k: int)
    requires SlotsWellFormed(comps) && 0 <= k <= |comps|
    ensures SlotsWellFormed(comps[..k])
  {
    forall s | 0 <= s < k && comps[..k][s].Some? ensures WellFormedComp(comps[..k][s].value) {
      assert comps[..k][s] == comps[s];
    }
  }

  /** Every dependency list of `vs` only names positions below `n`. */
  predicate VarsBounded(vs: seq<Var>, n: int)
  {
    forall i :: 0 <= i < |vs| ==> Bounded(vs[i].deps, n)
  }

  lemma VarsBoundedWider(vs: seq<Var>, m: int, n: int)
    requires VarsBounded(vs, m) && m <= n
    ensures VarsBounded(vs, n)
  {
    forall i | 0 <= i < |vs| ensures Bounded(vs[i].deps, n) {
      assert Bounded(vs[i].deps, m);
    }
  }

  lemma VarsBoundedConcat(a: seq<Var>, b: seq<Var>, n: int)
    requires VarsBounded(a, n) && VarsBounded(b, n)
    ensures VarsBounded(a + b, n)
  {
    forall i | 0 <= i < |a + b| ensures Bounded((a + b)[i].deps, n) {
      if i < |a| { assert (a + b)[i] == a[i]; } else { assert (a + b)[i] == b[i - |a|]; }
    }
  }

  /** A provider that only names its own variables yields a block that only
      names positions below its end. */
  lemma BlockBounded(deps: seq<seq<int>>, src: int, pad: nat)
    requires AllBounded(deps, |deps|)
    ensures VarsBounded(Block(deps, src, pad), pad + |deps|)
  {
    forall j | 0 <= j < |deps| ensures Bounded(Block(deps, src, pad)[j].deps, pad + |deps|) {
      BlockAt(deps, src, pad, j);
      PaddedBounded(deps[j], pad, |deps|);
    }
  }

  /** The whole sequence is its longest prefix. */
  lemma TakeAll<T>(s: seq<T>, k: int)
    requires k == |s|
    ensures s[..k] == s
  {
  }

  /** With well-formed components, every index in the component blocks is
      below the end of the last block. */
  lemma {:induction false} CompBlocksBounded(comps: seq<Option<CompReply>>, base: nat)
    requires SlotsWellFormed(comps)
    ensures VarsBounded(CompBlocks(comps, base), base + NdynSum(comps))
  {
    if comps != [] {
      var last := |comps| - 1;
      var prefix := comps[..last];
      SlotsWellFormedPrefix(comps, last);
      CompBlocksBounded(prefix, base);
      CompBlocksSize(prefix, base);
      BlocksStep(comps, base, last);
      TakeAll(comps, last + 1);
      var prev := CompBlocks(prefix, base);
      var n := base + NdynSum(comps);
      VarsBoundedWider(prev, base + NdynSum(prefix), n);
      if comps[last].Some? {
        var c := comps[last].value;
        assert WellFormedComp(c);
        BlockBounded(c.deps, last, base + |prev|);
        VarsBoundedConcat(prev, CompBlock(c, last, base + |prev|), n);
      }
    }
  }

  lemma InfoBoundedWider(ts: TScalarInfo, m: int, n: int)
    requires InfoBounded(ts, m) && m <= n
    ensures InfoBounded(ts, n)
  {
  }

  /** With well-formed components, every index of the aggregated table is
      below the end of the last block. */
  lemma {:induction false} AggInfoBounded(comps: seq<Option<CompReply>>, base: nat)
    requires SlotsWellFormed(comps)
    ensures InfoBounded(AggInfo(comps, base), base + NdynSum(comps))
  {
    if comps != [] {
      var last := |comps| - 1;
      var prefix := comps[..last];
      SlotsWellFormedPrefix(comps, last);
      AggInfoBounded(prefix, base);
      CompBlocksSize(prefix, base);
      var n := base + NdynSum(comps);
      var agg := AggInfo(prefix, base);
      InfoBoundedWider(agg, base + NdynSum(prefix), n);
      match comps[last]
      case None =>
      case Some(c) =>
        var pad := base + |CompBlocks(prefix, base)|;
        assert WellFormedComp(c);
        assert n == pad + |c.deps|;
        PadInfoBounded(c.tinfo, pad, |c.deps|);
        var pi := PadInfo(c.tinfo, pad);
        assert AggInfo(comps, base) == AppendInfo(agg, pi);
        BoundedConcat(agg.drho, pi.drho, n);
        BoundedConcat(agg.rhoppv, pi.rhoppv, n);
        BoundedConcat(agg.dp, pi.dp, n);
        BoundedConcat(agg.dPi, pi.dPi, n);
    }
  }

  /** With well-formed providers, every concrete index of the assembled
      table and of the tables it is resolved against is a position of the
      table. */
  lemma AssembledBounded(g: GravReply, comps: seq<Option<CompReply>>)
    requires WellFormedGrav(g) && SlotsWellFormed(comps)
    ensures forall i :: 0 <= i < |Assembled(g, comps)| ==> Bounded(Assembled(g, comps)[i].deps, |Assembled(g, comps)|)
    ensures TablesBounded(AssembledTables(g, comps), |Assembled(g, comps)|)
  {
    AssembledSize(g, comps);
    CompBlocksBounded(comps, |g.deps|);
    AggInfoBounded(comps, |g.deps|);
    var n := |Assembled(g, comps)|;
    BlockBounded(g.deps, GRAV_SRC, 0);
    VarsBoundedWider(GravBlock(g), |g.deps|, n);
    VarsBoundedConcat(GravBlock(g), CompBlocks(comps, |g.deps|), n);
  }

  /** Table-wide resolution keeps each variable's owner and index and resolves its list. */
  lemma {:induction false} ResolveTableShape(t: Tables, vs: seq<Var>, rv: seq<Var>)
    requires ResolveTable(t, vs) == Success(rv)
    ensures |rv| == |vs|
    ensures forall i :: 0 <= i < |vs| ==>
      rv[i].src == vs[i].src && rv[i].index == vs[i].index && Resolve(t, vs[i].deps, 0) == Success(rv[i].deps)
  {
    if vs != [] {
      var n := |vs| - 1;
      var prefix := vs[..n];
      var pre := ResolveTable(t, prefix);
      var r := Resolve(t, vs[n].deps, 0);
      assert pre.Success? && r.Success?;
      var p := pre.value;
      ResolveTableShape(t, prefix, p);
      assert rv == p + [vs[n].(deps := r.value)];
      forall i | 0 <= i < |vs|
        ensures rv[i].src == vs[i].src && rv[i].index == vs[i].index && Resolve(t, vs[i].deps, 0) == Success(rv[i].deps)
      {
        if i < n {
          assert rv[i] == p[i] && vs[i] == prefix[i];
          assert Resolve(t, prefix[i].deps, 0) == Success(p[i].deps);
        } else {
          assert rv[i] == vs[n].(deps := r.value);
          assert r == Success(rv[i].deps);
        }
      }
    }
  }

  /** A table whose resolution fails fails at some variable's own resolution. */
  lemma {:induction false} ResolveTableFailure(t: Tables, vs: seq<Var>, e: Fatal) returns (i: int)
    requires ResolveTable(t, vs) == Failure(e)
    ensures 0 <= i < |vs| && Resolve(t, vs[i].deps, 0) == Failure(e)
  {
    var prefix := vs[..|vs| - 1];
    if ResolveTable(t, prefix).Failure? {
      i := ResolveTableFailure(t, prefix, e);
    } else {
      i := |vs| - 1;
    }
  }

  /** The resolved table of well-formed providers: the same owners and
      indices, every list strictly ascending, free of placeholders and
      naming only positions of the table, so it can be reordered. */
  lemma ResolvedTable(g: GravReply, comps: seq<Option<CompReply>>, rv: seq<Var>)
    requires WellFormedGrav(g) && SlotsWellFormed(comps)
    requires ResolveTable(AssembledTables(g, comps), Assembled(g, comps)) == Success(rv)
    ensures |rv| == |g.deps| + NdynSum(comps)
    ensures VarsInRange(rv)
    ensures forall i :: 0 <= i < |rv| ==> rv[i].index == i && Sorting.StrictlySorted(rv[i].deps)
    ensures forall i :: 0 <= i < |rv| ==> (rv[i].src == GRAV_SRC <==> i < |g.deps|)
  {
    var t := AssembledTables(g, comps);
    var a := Assembled(g, comps);
    AssembledSize(g, comps);
    AssembledBounded(g, comps);
    AssembledOwners(g, comps);
    ResolveTableShape(t, a, rv);
    forall i | 0 <= i < |rv| ensures Sorting.StrictlySorted(rv[i].deps) && forall x :: x in rv[i].deps ==> 0 <= x < |rv| {
      ResolveCorrect(t, a[i].deps, 0, rv[i].deps);
      ResolveBounded(t, a[i].deps, 0, rv[i].deps, |rv|);
    }
  }

  /** Once a prefix of the table fails to resolve, the whole table fails
      with the same error: resolution stops at the first failure. */
  lemma {:induction false} ResolveTableFailFast(t: Tables, vs: seq<Var>, k: int, e: Fatal)
    requires 0 <= k <= |vs| && ResolveTable(t, vs[..k]) == Failure(e)
    ensures ResolveTable(t, vs) == Failure(e)
    decreases |vs| - k
  {
    if k < |vs| {
      assert vs[..k + 1][..k] == vs[..k];
      ResolveTableFailFast(t, vs, k + 1, e);
    } else {
      assert vs[..k] == vs;
    }
  }

  /** The object's state after a successful rebuild. */
  datatype Layout = Layout(vars: seq<Var>, mupper: int, mlower: int)

  /** Every dependency names a variable of the table. */
  predicate VarsInRange(vs: seq<Var>)
  {
    forall v, d :: 0 <= v < |vs| && d in vs[v].deps ==> 0 <= d < |vs|
  }

  lemma GraphInRange(vs: seq<Var>)
    requires VarsInRange(vs)
    ensures DepsIn(Graph(vs), |vs|)
  {
    var gr := Graph(vs);
    forall v, j | 0 <= v < |gr| && 0 <= j < |gr[v]| ensures 0 <= gr[v][j] < |vs| {
      assert gr[v][j] in vs[v].deps;
    }
  }

  /** Reordering a resolved table: each variable's index becomes its new
      row, and the bandwidths are measured on the permuted pattern. */
  function Arranged(rv: seq<Var>, perm: seq<int>, inv: seq<int>): Layout
    requires IsInversePair(perm, inv, |rv|) && VarsInRange(rv)
  {
    GraphInRange(rv);
    var rows := Permuted(Graph(rv), perm, inv);
    Layout(Reindexed(rv, perm, inv), UpperBand(rows), LowerBand(rows))
  }

  /** The rebuild: assemble, resolve every list, reorder, and measure the
      bandwidths of the reordered pattern. */
  function Rebuilt(rcm: Reorderer, g: GravReply, comps: seq<Option<CompReply>>): Result<Layout, Fatal>
    requires WellFormedGrav(g) && SlotsWellFormed(comps)
  {
    match ResolveTable(AssembledTables(g, comps), Assembled(g, comps))
    case Failure(e) => Failure(e)
    case Success(rv) =>
      ResolvedTable(g, comps, rv);
      var order := rcm(Graph(rv));
      Success(Arranged(rv, order.0, order.1))
  }

  /** Reordering keeps every variable's owner and list and makes the indices
      a permutation of the positions. */
  lemma ArrangedIndices(rv: seq<Var>, perm: seq<int>, inv: seq<int>, l: Layout)
    requires IsInversePair(perm, inv, |rv|) && VarsInRange(rv)
    requires l == Arranged(rv, perm, inv)
    ensures |l.vars| == |rv|
    ensures forall i :: 0 <= i < |rv| ==> l.vars[i].src == rv[i].src && l.vars[i].deps == rv[i].deps
    ensures forall i :: 0 <= i < |rv| ==> 0 <= l.vars[i].index < |rv|
    ensures forall i, j :: 0 <= i < j < |rv| ==> l.vars[i].index != l.vars[j].index
    ensures VarsInRange(l.vars)
  {
    var vs := Reindexed(rv, perm, inv);
    assert l.vars == vs;
    NewIndexMatchesRows(perm, inv, |rv|);
    forall i | 0 <= i < |rv| ensures vs[i] == rv[i].(index := NewIndex(perm, inv, i)) { }
    ReindexedGraph(rv, perm, inv);
  }

  /** The stored bandwidths bound every dependency of the reordered table. */
  lemma ArrangedBands(rv: seq<Var>, perm: seq<int>, inv: seq<int>, l: Layout)
    requires IsInversePair(perm, inv, |rv|) && VarsInRange(rv)
    requires l == Arranged(rv, perm, inv)
    ensures |l.vars| == |rv|
    ensures 0 <= l.mupper && 0 <= l.mlower
    ensures forall v, d :: 0 <= v < |l.vars| && d in l.vars[v].deps ==>
      l.vars[d].index - l.vars[v].index <= l.mupper && l.vars[v].index - l.vars[d].index <= l.mlower
  {
    GraphInRange(rv);
    var graph := Graph(rv);
    var vs := Reindexed(rv, perm, inv);
    var rows := Permuted(graph, perm, inv);
    assert l.vars == vs && l.mupper == UpperBand(rows) && l.mlower == LowerBand(rows);
    BandBounds(rows);
    forall v, d | 0 <= v < |vs| && d in vs[v].deps
      ensures vs[d].index - vs[v].index <= l.mupper && vs[v].index - vs[d].index <= l.mlower
    {
      assert graph[v] == rv[v].deps == vs[v].deps;
      BandCoversDependencies(graph, perm, inv, v, d);
      assert vs[d].index == NewIndex(perm, inv, d) && vs[v].index == NewIndex(perm, inv, v);
    }
  }

  /** Reindexing keeps every variable's list, hence the dependency graph. */
  lemma ReindexedGraph(rv: seq<Var>, perm: seq<int>, inv: seq<int>)
    requires IsInversePair(perm, inv, |rv|) && VarsInRange(rv)
    ensures Graph(Reindexed(rv, perm, inv)) == Graph(rv)
    ensures VarsInRange(Reindexed(rv, perm, inv))
  {
    var vs := Reindexed(rv, perm, inv);
    assert forall v :: 0 <= v < |vs| ==> vs[v].deps == rv[v].deps;
  }

  /** The parts of an arrangement, named. */
  lemma ArrangedParts(rv: seq<Var>, perm: seq<int>, inv: seq<int>, l: Layout)
    requires IsInversePair(perm, inv, |rv|) && VarsInRange(rv)
    requires l == Arranged(rv, perm, inv)
    ensures DepsIn(Graph(rv), |rv|)
    ensures l.vars == Reindexed(rv, perm, inv)
    ensures l.mupper == UpperBand(Permuted(Graph(rv), perm, inv))
    ensures l.mlower == LowerBand(Permuted(Graph(rv), perm, inv))
  {
    GraphInRange(rv);
  }

  /** A positive upper bandwidth is reached by some dependency of the reordered table. */
  lemma ArrangedUpperAttained(rv: seq<Var>, perm: seq<int>, inv: seq<int>, l: Layout) returns (v: int, d: int)
    requires IsInversePair(perm, inv, |rv|) && VarsInRange(rv)
    requires l == Arranged(rv, perm, inv) && l.mupper > 0
    ensures 0 <= v < |l.vars| && d in l.vars[v].deps && 0 <= d < |l.vars|
    ensures l.vars[d].index - l.vars[v].index == l.mupper
  {
    ArrangedParts(rv, perm, inv, l);
    var graph := Graph(rv);
    v, d := UpperAttainedByDependency(graph, perm, inv);
    assert graph[v] == rv[v].deps == l.vars[v].deps;
  }

  /** A positive lower bandwidth is reached by some dependency of the reordered table. */
  lemma ArrangedLowerAttained(rv: seq<Var>, perm: seq<int>, inv: seq<int>, l: Layout) returns (v: int, d: int)
    requires IsInversePair(perm, inv, |rv|) && VarsInRange(rv)
    requires l == Arranged(rv, perm, inv) && l.mlower > 0
    ensures 0 <= v < |l.vars| && d in l.vars[v].deps && 0 <= d < |l.vars|
    ensures l.vars[v].index - l.vars[d].index == l.mlower
  {
    ArrangedParts(rv, perm, inv, l);
    var graph := Graph(rv);
    v, d := LowerAttainedByDependency(graph, perm, inv);
    assert graph[v] == rv[v].deps == l.vars[v].deps;
  }

  /** Each positive bandwidth is reached by some dependency of the reordered table. */
  lemma ArrangedBandsAttained(rv: seq<Var>, perm: seq<int>, inv: seq<int>, l: Layout)
    requires IsInversePair(perm, inv, |rv|) && VarsInRange(rv)
    requires l == Arranged(rv, perm, inv)
    ensures |l.vars| == |rv|
    ensures l.mupper > 0 ==>
      (exists v, d :: 0 <= v < |l.vars| && d in l.vars[v].deps && l.vars[d].index - l.vars[v].index == l.mupper)
    ensures l.mlower > 0 ==>
      (exists v, d :: 0 <= v < |l.vars| && d in l.vars[v].deps && l.vars[v].index - l.vars[d].index == l.mlower)
  {
    ArrangedParts(rv, perm, inv, l);
    if l.mupper > 0 {
      var v, d := ArrangedUpperAttained(rv, perm, inv, l);
    }
    if l.mlower > 0 {
      var v, d := ArrangedLowerAttained(rv, perm, inv, l);
    }
  }

  /** A successful rebuild is the arrangement of the resolved table. */
  lemma RebuiltParts(rcm: Reorderer, g: GravReply, comps: seq<Option<CompReply>>, l: Layout)
    returns (rv: seq<Var>, perm: seq<int>, inv: seq<int>)
    requires WellFormedGrav(g) && SlotsWellFormed(comps)
    requires Rebuilt(rcm, g, comps) == Success(l)
    ensures ResolveTable(AssembledTables(g, comps), Assembled(g, comps)) == Success(rv)
    ensures IsInversePair(perm, inv, |rv|) && VarsInRange(rv)
    ensures l == Arranged(rv, perm, inv)
  {
    rv := ResolveTable(AssembledTables(g, comps), Assembled(g, comps)).value;
    ResolvedTable(g, comps, rv);
    perm, inv := rcm(Graph(rv)).0, rcm(Graph(rv)).1;
  }

  /** After a successful rebuild there is one variable per dynamical degree
      of freedom, gravitation's first, then those of the occupied slots. */
  lemma RebuiltOwners(rcm: Reorderer, g: GravReply, comps: seq<Option<CompReply>>, l: Layout)
    requires WellFormedGrav(g) && SlotsWellFormed(comps)
    requires Rebuilt(rcm, g, comps) == Success(l)
    ensures |l.vars| == |g.deps| + NdynSum(comps)
    ensures forall i :: 0 <= i < |l.vars| ==> (l.vars[i].src == GRAV_SRC <==> i < |g.deps|)
    ensures forall i :: |g.deps| <= i < |l.vars| ==> 0 <= l.vars[i].src < |comps| && comps[l.vars[i].src].Some?
  {
    var rv, perm, inv := RebuiltParts(rcm, g, comps, l);
    var a := Assembled(g, comps);
    ResolveTableShape(AssembledTables(g, comps), a, rv);
    AssembledSize(g, comps);
    AssembledOwners(g, comps);
    ArrangedIndices(rv, perm, inv, l);
    forall i | 0 <= i < |l.vars|
      ensures l.vars[i].src == GRAV_SRC <==> i < |g.deps|
      ensures i >= |g.deps| ==> 0 <= l.vars[i].src < |comps| && comps[l.vars[i].src].Some?
    {
      assert l.vars[i].src == rv[i].src == a[i].src;
    }
  }

  /** After a successful rebuild each variable's list is the resolved
      closure of the list its provider reported, ascending and naming only
      variables of the table. */
  lemma RebuiltLists(rcm: Reorderer, g: GravReply, comps: seq<Option<CompReply>>, l: Layout)
    requires WellFormedGrav(g) && SlotsWellFormed(comps)
    requires Rebuilt(rcm, g, comps) == Success(l)
    ensures |l.vars| == |Assembled(g, comps)|
    ensures forall i :: 0 <= i < |l.vars| ==>
      Resolve(AssembledTables(g, comps), Assembled(g, comps)[i].deps, 0) == Success(l.vars[i].deps)
    ensures forall i :: 0 <= i < |l.vars| ==> Sorting.StrictlySorted(l.vars[i].deps)
    ensures VarsInRange(l.vars)
  {
    var rv, perm, inv := RebuiltParts(rcm, g, comps, l);
    ResolvedTable(g, comps, rv);
    ResolveTableShape(AssembledTables(g, comps), Assembled(g, comps), rv);
    ArrangedIndices(rv, perm, inv, l);
    forall i | 0 <= i < |l.vars|
      ensures Resolve(AssembledTables(g, comps), Assembled(g, comps)[i].deps, 0) == Success(l.vars[i].deps)
      ensures Sorting.StrictlySorted(l.vars[i].deps)
    {
      assert l.vars[i].deps == rv[i].deps;
    }
    forall v, d | 0 <= v < |l.vars| && d in l.vars[v].deps ensures 0 <= d < |l.vars| {
      assert l.vars[v].deps == rv[v].deps;
    }
  }

  /** What a successful rebuild establishes about the ordering: the indices
      are a permutation of the positions and the stored bandwidths are the
      exact extent of the reordered Jacobian. */
  lemma RebuiltBanded(rcm: Reorderer, g: GravReply, comps: seq<Option<CompReply>>, l: Layout)
    requires WellFormedGrav(g) && SlotsWellFormed(comps)
    requires Rebuilt(rcm, g, comps) == Success(l)
    ensures VarsInRange(l.vars)
    ensures forall i :: 0 <= i < |l.vars| ==> 0 <= l.vars[i].index < |l.vars|
    ensures forall i, j :: 0 <= i < j < |l.vars| ==> l.vars[i].index != l.vars[j].index
    ensures 0 <= l.mupper && 0 <= l.mlower
    ensures forall v, d :: 0 <= v < |l.vars| && d in l.vars[v].deps ==>
      l.vars[d].index - l.vars[v].index <= l.mupper && l.vars[v].index - l.vars[d].index <= l.mlower
    ensures l.mupper > 0 ==>
      (exists v, d :: 0 <= v < |l.vars| && d in l.vars[v].deps && l.vars[d].index - l.vars[v].index == l.mupper)
    ensures l.mlower > 0 ==>
      (exists v, d :: 0 <= v < |l.vars| && d in l.vars[v].deps && l.vars[v].index - l.vars[d].index == l.mlower)
  {
    var rv, perm, inv := RebuiltParts(rcm, g, comps, l);
    ArrangedIndices(rv, perm, inv, l);
    ArrangedBands(rv, perm, inv, l);
    ArrangedBandsAttained(rv, perm, inv, l);
  }

  /** A failed rebuild fails at some variable whose own list cannot be resolved. */
  lemma RebuiltFailure(rcm: Reorderer, g: GravReply, comps: seq<Option<CompReply>>, e: Fatal) returns (i: int)
    requires WellFormedGrav(g) && SlotsWellFormed(comps)
    requires Rebuilt(rcm, g, comps) == Failure(e)
    ensures 0 <= i < |Assembled(g, comps)|
    ensures Resolve(AssembledTables(g, comps), Assembled(g, comps)[i].deps, 0) == Failure(e)
  {
    i := ResolveTableFailure(AssembledTables(g, comps), Assembled(g, comps), e);
  }
}
