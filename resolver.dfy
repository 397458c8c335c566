/** Dependency closure: `_nc_hipert_first_order_solve_deps` replaces every
    placeholder code in a dependency list by the list it expands to, until no
    placeholder is left, then sorts the list and removes duplicates. */
module Resolver {
  import opened Outcomes
  import opened Padding
  import opened Sorting

  /* The placeholder codes (NcHIPertGravSElem). nc_hipert_grav.h is not part
     of this model; the codes are numbered -1 .. -8 in the order of the
     switch in solve_deps. */
  const PHI: int := -1
  const DSIGMA: int := -2
  const PSI: int := -3
  const DOTPSI: int := -4
  const DRHO: int := -5
  const RHOPPV: int := -6
  const DP: int := -7
  const DPI: int := -8

  /** A negative entry that names one of the eight placeholders. */
  predicate IsCode(v: int)
  {
    DPI <= v <= PHI
  }

  /** What the gravitation object says its four potentials depend on (NcHIPertGravInfo). */
  datatype GravInfo = GravInfo(phi: seq<int>, dsigma: seq<int>, psi: seq<int>, dotpsi: seq<int>)

  /** What the components' stress-energy perturbations depend on (NcHIPertGravTScalarInfo). */
  datatype TScalarInfo = TScalarInfo(drho: seq<int>, rhoppv: seq<int>, dp: seq<int>, dPi: seq<int>)

  /** The two tables a resolution reads. */
  datatype Tables = Tables(ginfo: GravInfo, tsinfo: TScalarInfo)

  /** `nc_hipert_grav_T_scalar_info_new`: all four lists empty. */
  const EmptyTScalarInfo: TScalarInfo := TScalarInfo([], [], [], [])

  /** `nc_hipert_grav_T_scalar_info_add_pad`: `add_pad` on each of the four lists. */
  function PadInfo(ts: TScalarInfo, pad: int): TScalarInfo
  {
    TScalarInfo(Padded(ts.drho, pad), Padded(ts.rhoppv, pad), Padded(ts.dp, pad), Padded(ts.dPi, pad))
  }

  /** `nc_hipert_grav_T_scalar_info_append`: each list of `b` appended to the one of `a`. */
  function AppendInfo(a: TScalarInfo, b: TScalarInfo): TScalarInfo
  {
    TScalarInfo(a.drho + b.drho, a.rhoppv + b.rhoppv, a.dp + b.dp, a.dPi + b.dPi)
  }

  predicate InfoBounded(ts: TScalarInfo, n: int)
  {
    Bounded(ts.drho, n) && Bounded(ts.rhoppv, n) && Bounded(ts.dp, n) && Bounded(ts.dPi, n)
  }

  predicate GravInfoBounded(g: GravInfo, n: int)
  {
    Bounded(g.phi, n) && Bounded(g.dsigma, n) && Bounded(g.psi, n) && Bounded(g.dotpsi, n)
  }

  /** Every concrete index either table can hand out is below `n`. */
  predicate TablesBounded(t: Tables, n: int)
  {
    GravInfoBounded(t.ginfo, n) && InfoBounded(t.tsinfo, n)
  }

  /** The list a placeholder is replaced by: the four metric placeholders read
      the gravitation table, the four stress-energy ones the component table. */
  function Expansion(t: Tables, c: int): seq<int>
    requires IsCode(c)
  {
    if c == PHI then t.ginfo.phi
    else if c == DSIGMA then t.ginfo.dsigma
    else if c == PSI then t.ginfo.psi
    else if c == DOTPSI then t.ginfo.dotpsi
    else if c == DRHO then t.tsinfo.drho
    else if c == RHOPPV then t.tsinfo.rhoppv
    else if c == DP then t.tsinfo.dp
    else t.tsinfo.dPi
  }

  lemma ExpansionBounded(t: Tables, c: int, n: int)
    requires IsCode(c) && TablesBounded(t, n)
    ensures Bounded(Expansion(t, c), n)
  {
  }

  /** The concrete entries of `s`, in order. */
  function Concretes(s: seq<int>): (r: seq<int>)
    ensures forall x :: x in r <==> x in s && x >= 0
  {
    if s == [] then []
    else
      assert s == s[..|s| - 1] + [s[|s| - 1]];
      if s[|s| - 1] >= 0 then Concretes(s[..|s| - 1]) + [s[|s| - 1]] else Concretes(s[..|s| - 1])
  }

  /** The negative entries of `s`, in order. */
  function Placeholders(s: seq<int>): (r: seq<int>)
    ensures forall x :: x in r <==> x in s && x < 0
  {
    if s == [] then []
    else
      assert s == s[..|s| - 1] + [s[|s| - 1]];
      if s[|s| - 1] < 0 then Placeholders(s[..|s| - 1]) + [s[|s| - 1]] else Placeholders(s[..|s| - 1])
  }

  /** Every negative entry is one of the eight placeholder codes. */
  predicate AllKnown(s: seq<int>)
  {
    forall i :: 0 <= i < |s| && s[i] < 0 ==> IsCode(s[i])
  }

  predicate NoPlaceholders(s: seq<int>)
  {
    forall i :: 0 <= i < |s| ==> s[i] >= 0
  }

  predicate AllCodes(ps: seq<int>)
  {
    forall i :: 0 <= i < |ps| ==> IsCode(ps[i])
  }

  lemma KnownPlaceholders(s: seq<int>)
    requires AllKnown(s)
    ensures AllCodes(Placeholders(s))
  {
    var ps := Placeholders(s);
    forall i | 0 <= i < |ps| ensures IsCode(ps[i]) { assert ps[i] in ps; }
  }

  /** The expansions of the placeholders `ps`, concatenated in order. */
  function ExpandAll(t: Tables, ps: seq<int>): seq<int>
    requires AllCodes(ps)
  {
    if ps == [] then [] else ExpandAll(t, ps[..|ps| - 1]) + Expansion(t, ps[|ps| - 1])
  }

  /** One substitution round: the list that a scan over the entries present
      when it starts leaves behind. Concrete entries keep their order, each
      placeholder is removed and its expansion appended. */
  function Round(t: Tables, s: seq<int>): seq<int>
    requires AllKnown(s)
  {
    KnownPlaceholders(s);
    Concretes(s) + ExpandAll(t, Placeholders(s))
  }

  /** Resolution of a dependency list entered at recursion level `r`. */
  function Resolve(t: Tables, s: seq<int>, r: nat): Result<seq<int>, Fatal>
    decreases if r > 9 then 0 else 10 - r
  {
    if r > 9 then Failure(TooManyRecursionLevels)
    else if !AllKnown(s) then Failure(UnknownPlaceholder)
    else if NoPlaceholders(s) then Success(SortUnique(s))
    else Resolve(t, Round(t, s), r + 1)
  }

  lemma {:induction false} NoPlaceholdersConcretes(s: seq<int>)
    requires Placeholders(s) == []
    ensures NoPlaceholders(s) && Concretes(s) == s
  {
    if s != [] {
      NoPlaceholdersConcretes(s[..|s| - 1]);
      assert s == s[..|s| - 1] + [s[|s| - 1]];
    }
  }

  /** One more entry of `s` seen by the duplicate-removal loop. */
  lemma DedupStep(s: seq<int>, m: int)
    requires 0 <= m < |s|
    ensures var p := Dedup(s[..m]);
      Dedup(s[..m + 1]) == if p != [] && p[|p| - 1] == s[m] then p else p + [s[m]]
  {
    assert s[..m + 1][..m] == s[..m];
  }

  /** Dropping the entry at `j` of `kept + [v] + rest`, or keeping it. */
  lemma DropOrKeep(d: seq<int>, j: int, kept: seq<int>, v: int, rest: seq<int>)
    requires 0 <= j < |d| && d[..j] == kept && d[j..] == [v] + rest
    ensures var e := d[..j] + d[j + 1..]; e[..j] == kept && e[j..] == rest
    ensures d[..j + 1] == kept + [v] && d[j + 1..] == rest
  {
    assert d[j + 1..] == d[j..][1..];
  }

  /** The state of the duplicate-removal loop: the first `j` entries of `d`
      are the deduplicated first `m` entries of `sorted`, the rest of `d` is
      the rest of `sorted`, and `last` is the last entry kept. */
  ghost predicate DedupInv(sorted: seq<int>, d: seq<int>, j: int, m: int, last: int)
  {
    1 <= j <= |d| && 1 <= m <= |sorted| &&
    d[..j] == Dedup(sorted[..m]) && d[j..] == sorted[m..] && last == d[j - 1]
  }

  lemma DedupStart(sorted: seq<int>)
    requires |sorted| > 1
    ensures DedupInv(sorted, sorted, 1, 1, sorted[0])
  {
    assert sorted[..1] == [sorted[0]];
  }

  /** One iteration of the loop: an entry equal to `last` is removed,
      another one is kept and becomes `last`. */
  lemma DedupAdvance(sorted: seq<int>, d: seq<int>, j: int, m: int, last: int)
    requires DedupInv(sorted, d, j, m, last) && j < |d|
    ensures d[j] == last ==> DedupInv(sorted, d[..j] + d[j + 1..], j, m + 1, last)
    ensures d[j] != last ==> DedupInv(sorted, d, j + 1, m + 1, d[j])
  {
    var kept := d[..j];
    assert d[j..] == [d[j]] + d[j + 1..];
    assert sorted[m..] == [sorted[m]] + sorted[m + 1..];
    DropOrKeep(d, j, kept, sorted[m], sorted[m + 1..]);
    DedupStep(sorted, m);
  }

  lemma DedupEnd(sorted: seq<int>, d: seq<int>, j: int, m: int, last: int)
    requires DedupInv(sorted, d, j, m, last) && j == |d|
    ensures d == Dedup(sorted)
  {
    assert sorted[m..] == [];
    assert sorted[..m] == sorted;
    assert d[..j] == d;
  }

  /** The closing loop of `solve_deps` (lines 571-586): walks the sorted
      list and removes every entry equal to the last one kept. */
  method DropAdjacentDuplicates(sorted: seq<int>) returns (d: seq<int>)
    ensures d == Dedup(sorted)
  {
    d := sorted;
    if |d| > 1 {
      var last := d[0];
      var j := 1;
      ghost var m := 1;
      DedupStart(sorted);
      while j < |d|
        invariant DedupInv(sorted, d, j, m, last)
        decreases |d| - j
      {
        DedupAdvance(sorted, d, j, m, last);
        if d[j] == last {
          d := d[..j] + d[j + 1..];
        } else {
          last := d[j];
          j := j + 1;
        }
        m := m + 1;
      }
      DedupEnd(sorted, d, j, m, last);
    } else {
      assert |d| == 1 ==> d == [] + [d[0]];
    }
  }

  /** The state of a scan after it has examined the first `k` original entries. */
  function ScanImage(t: Tables, deps: seq<int>, k: nat): seq<int>
    requires k <= |deps| && AllKnown(deps[..k])
  {
    KnownPlaceholders(deps[..k]);
    Concretes(deps[..k]) + deps[k..] + ExpandAll(t, Placeholders(deps[..k]))
  }

  /** An unknown code among the first `k` entries is unknown in the whole list. */
  lemma NotAllKnown(deps: seq<int>, k: nat)
    requires k <= |deps| && !AllKnown(deps[..k])
    ensures !AllKnown(deps)
  {
    var j :| 0 <= j < k && deps[..k][j] < 0 && !IsCode(deps[..k][j]);
    assert deps[j] == deps[..k][j];
  }

  /** The entry a scan examines next is the next original entry; the
      entries examined so far stay known exactly when it is concrete or a
      known code. */
  lemma ScanHead(t: Tables, deps: seq<int>, k: nat)
    requires k < |deps| && AllKnown(deps[..k])
    ensures var i := |Concretes(deps[..k])|; var d := ScanImage(t, deps, k);
      i < |d| && d[i] == deps[k]
    ensures AllKnown(deps[..k + 1]) <==> deps[k] >= 0 || IsCode(deps[k])
  {
    var p := deps[..k + 1];
    assert p == deps[..k] + [deps[k]];
    assert deps[k..] == [deps[k]] + deps[k + 1..];
    if deps[k] >= 0 || IsCode(deps[k]) {
      forall j | 0 <= j < |p| && p[j] < 0 ensures IsCode(p[j]) {
        if j < k {
          assert p[j] == deps[..k][j];
        }
      }
    } else {
      assert p[k] == deps[k];
    }
  }

  /** One more original entry examined: a concrete one joins the concrete
      entries, a placeholder the placeholders. */
  lemma SeenStep(deps: seq<int>, k: nat)
    requires k < |deps|
    ensures Concretes(deps[..k + 1]) ==
      (if deps[k] >= 0 then Concretes(deps[..k]) + [deps[k]] else Concretes(deps[..k]))
    ensures Placeholders(deps[..k + 1]) ==
      (if deps[k] < 0 then Placeholders(deps[..k]) + [deps[k]] else Placeholders(deps[..k]))
  {
    assert deps[..k + 1][..k] == deps[..k];
  }

  /** The image of a scan before entry `k`: the concrete entries seen, the
      original entries from `k` on, then the expansions of the placeholders
      seen. */
  lemma ScanImageAt(t: Tables, deps: seq<int>, k: nat)
    requires k < |deps| && AllKnown(deps[..k + 1])
    ensures AllKnown(deps[..k]) && AllCodes(Placeholders(deps[..k]))
    ensures ScanImage(t, deps, k) ==
      Concretes(deps[..k]) + ([deps[k]] + deps[k + 1..]) + ExpandAll(t, Placeholders(deps[..k]))
  {
    assert deps[..k + 1][..k] == deps[..k];
    assert deps[k..] == [deps[k]] + deps[k + 1..];
    KnownPlaceholders(deps[..k]);
  }

  /** Examining a concrete entry `k` leaves the image unchanged. */
  lemma ScanStepConcrete(t: Tables, deps: seq<int>, k: nat)
    requires k < |deps| && AllKnown(deps[..k + 1]) && deps[k] >= 0
    ensures AllKnown(deps[..k])
    ensures ScanImage(t, deps, k + 1) == ScanImage(t, deps, k)
  {
    ScanImageAt(t, deps, k);
    SeenStep(deps, k);
    var cs, rest := Concretes(deps[..k]), deps[k + 1..];
    var e := ExpandAll(t, Placeholders(deps[..k]));
    assert deps[..k + 1][k] == deps[k];
    assert ScanImage(t, deps, k + 1) == (cs + [deps[k]]) + rest + e;
    AppendAssoc(cs, [deps[k]], rest);
  }

  /** Examining a placeholder at position `i` of the image removes it and
      appends its expansion. */
  lemma ScanStepPlaceholder(t: Tables, deps: seq<int>, k: nat)
    requires k < |deps| && AllKnown(deps[..k + 1]) && deps[k] < 0
    ensures AllKnown(deps[..k]) && IsCode(deps[k])
    ensures var i := |Concretes(deps[..k])|; var d := ScanImage(t, deps, k);
      i < |d| && ScanImage(t, deps, k + 1) == d[..i] + d[i + 1..] + Expansion(t, deps[k])
  {
    ScanImageAt(t, deps, k);
    ScanImageAfterPlaceholder(t, deps, k);
    PlaceholderImage(Concretes(deps[..k]), deps[k], deps[k + 1..], ExpandAll(t, Placeholders(deps[..k])),
      Expansion(t, deps[k]), ScanImage(t, deps, k), ScanImage(t, deps, k + 1));
  }

  /** The image just past a placeholder entry `k`. */
  lemma ScanImageAfterPlaceholder(t: Tables, deps: seq<int>, k: nat)
    requires k < |deps| && AllKnown(deps[..k + 1]) && deps[k] < 0
    ensures AllKnown(deps[..k]) && IsCode(deps[k]) && AllCodes(Placeholders(deps[..k]))
    ensures ScanImage(t, deps, k + 1) ==
      Concretes(deps[..k]) + deps[k + 1..] + (ExpandAll(t, Placeholders(deps[..k])) + Expansion(t, deps[k]))
  {
    assert deps[..k + 1][k] == deps[k];
    assert deps[..k + 1][..k] == deps[..k];
    KnownPlaceholders(deps[..k]);
    SeenStep(deps, k);
    ExpandAllSnoc(t, Placeholders(deps[..k]), deps[k]);
  }

  /** The image after a placeholder: the placeholder leaves its position and
      its expansion joins the end. */
  lemma PlaceholderImage(cs: seq<int>, v: int, rest: seq<int>, e: seq<int>, x: seq<int>, d: seq<int>, n: seq<int>)
    requires d == cs + ([v] + rest) + e && n == cs + rest + (e + x)
    ensures |cs| < |d| && n == d[..|cs|] + d[|cs| + 1..] + x
  {
    RemoveAt(cs, v, rest, e, d);
    AppendAssoc(cs + rest, e, x);
  }

  lemma ExpandAllSnoc(t: Tables, ps: seq<int>, c: int)
    requires AllCodes(ps) && IsCode(c)
    ensures AllCodes(ps + [c]) && ExpandAll(t, ps + [c]) == ExpandAll(t, ps) + Expansion(t, c)
  {
    assert (ps + [c])[..|ps|] == ps;
  }

  lemma AppendAssoc<T>(a: seq<T>, b: seq<T>, c: seq<T>)
    ensures a + (b + c) == (a + b) + c
  {
  }

  /** A prefix one longer is the shorter prefix and the next entry. */
  lemma TakeSnoc<T>(s: seq<T>, i: int)
    requires 0 <= i < |s|
    ensures s[..i + 1] == s[..i] + [s[i]]
  {
  }

  /** Removing the entry right after the prefix `a`. */
  lemma RemoveAt(a: seq<int>, v: int, b: seq<int>, e: seq<int>, d: seq<int>)
    requires d == a + ([v] + b) + e
    ensures |a| < |d| && d[|a|] == v && d[..|a|] + d[|a| + 1..] == a + b + e
  {
    assert d[..|a|] == a;
    assert d[|a| + 1..] == b + e;
    AppendAssoc(a, b, e);
  }

  /** The state of a scan after examining the first `k` original entries:
      `i` is the position of the next one in the working list `d`, and
      `subs` records whether a placeholder was substituted. */
  ghost predicate ScanInv(t: Tables, deps: seq<int>, k: nat, i: int, d: seq<int>, subs: bool)
  {
    k <= |deps| && AllKnown(deps[..k]) && i == |Concretes(deps[..k])| &&
    d == ScanImage(t, deps, k) && (subs <==> Placeholders(deps[..k]) != [])
  }

  /** One iteration of the scan keeps `ScanInv`: a concrete entry is
      stepped over, a placeholder is removed and its expansion appended. */
  lemma ScanAdvance(t: Tables, deps: seq<int>, k: nat, i: int, d: seq<int>, subs: bool)
    requires k < |deps| && ScanInv(t, deps, k, i, d, subs) && (deps[k] >= 0 || IsCode(deps[k]))
    ensures 0 <= i < |d| && d[i] == deps[k]
    ensures deps[k] < 0 ==> ScanInv(t, deps, k + 1, i, d[..i] + d[i + 1..] + Expansion(t, deps[k]), true)
    ensures deps[k] >= 0 ==> ScanInv(t, deps, k + 1, i + 1, d, subs)
  {
    ScanHead(t, deps, k);
    SeenStep(deps, k);
    if deps[k] < 0 {
      ScanStepPlaceholder(t, deps, k);
      assert Placeholders(deps[..k + 1]) != [];
    } else {
      ScanStepConcrete(t, deps, k);
    }
  }

  /** A scan that examined every entry has produced one round. */
  lemma ScanImageEnd(t: Tables, deps: seq<int>)
    requires AllKnown(deps[..|deps|])
    ensures deps[..|deps|] == deps
    ensures AllKnown(deps) && ScanImage(t, deps, |deps|) == Round(t, deps)
  {
    assert deps[..|deps|] == deps;
    assert deps[|deps|..] == [];
  }

  /** The scan loop of `_nc_hipert_first_order_solve_deps` (lines 511-562),
      bounded by the entries present when it starts (see README, Findings):
      each placeholder is removed and its expansion appended; an unknown
      code stops the scan (`g_assert_not_reached`). */
  method ScanRound(t: Tables, deps: seq<int>) returns (ok: bool, d: seq<int>, subs: bool)
    ensures ok <==> AllKnown(deps)
    ensures ok ==> AllKnown(deps) && d == Round(t, deps) && (subs <==> Placeholders(deps) != [])
  {
    d := deps;
    subs := false;
    var i := 0;
    var end := |d|;
    ghost var k := 0;
    assert deps[..0] == [];
    while i < end
      invariant ScanInv(t, deps, k, i, d, subs)
      invariant end == i + (|deps| - k)
      decreases |deps| - k
    {
      ScanHead(t, deps, k);
      var v := d[i];
      if v < 0 && !IsCode(v) {
        NotAllKnown(deps, k + 1);
        return false, d[..i] + d[i + 1..], true;
      }
      ScanAdvance(t, deps, k, i, d, subs);
      if v < 0 {
        d := d[..i] + d[i + 1..];
        subs := true;
        d := d + Expansion(t, v);
        end := end - 1;
      } else {
        i := i + 1;
      }
      k := k + 1;
    }
    ScanImageEnd(t, deps);
    ok := true;
  }

  /** `_nc_hipert_first_order_solve_deps`, with each scan bounded by the
      entries present when the scan starts (see README, Findings): after a
      scan that substituted anything, the list is resolved again one level
      deeper; otherwise it is sorted and adjacent duplicates are dropped.
      Level 10 is a fatal error and an unknown code an assertion failure. */
  method SolveDeps(t: Tables, deps: seq<int>, r: nat) returns (res: Result<seq<int>, Fatal>)
    ensures res == Resolve(t, deps, r)
    decreases if r > 9 then 0 else 10 - r
  {
    if r > 9 {
      return Failure(TooManyRecursionLevels);
    }
    var ok, d, subs := ScanRound(t, deps);
    if !ok {
      return Failure(UnknownPlaceholder);
    }
    if subs {
      assert !NoPlaceholders(deps) by {
        var ps := Placeholders(deps);
        assert ps[0] in ps;
      }
      res := SolveDeps(t, d, r + 1);
    } else {
      NoPlaceholdersConcretes(deps);
      assert d == deps;
      d := SortAsc(d);
      d := DropAdjacentDuplicates(d);
      res := Success(d);
    }
  }

  /* ------------------------------------------------------------------ */
  /* The closure that resolution computes.                              */

  /** `x` is reached from the list `s` by expanding placeholders at most `k`
      times: it is in `s`, or in what a placeholder of `s` reaches in `k - 1`. */
  ghost predicate Reaches(t: Tables, s: seq<int>, x: int, k: nat)
    decreases k
  {
    x in s || (k > 0 && exists c :: IsCode(c) && c in s && Reaches(t, Expansion(t, c), x, k - 1))
  }

  lemma {:induction false} ExpandAllContains(t: Tables, ps: seq<int>, c: int, y: int)
    requires AllCodes(ps)
    requires c in ps && y in Expansion(t, c)
    ensures y in ExpandAll(t, ps)
  {
    var q := ps[..|ps| - 1];
    if c != ps[|ps| - 1] {
      assert ps == q + [ps[|ps| - 1]];
      ExpandAllContains(t, q, c, y);
    }
  }

  lemma {:induction false} ExpandAllSource(t: Tables, ps: seq<int>, y: int) returns (c: int)
    requires AllCodes(ps)
    requires y in ExpandAll(t, ps)
    ensures c in ps && IsCode(c) && y in Expansion(t, c)
  {
    var q := ps[..|ps| - 1];
    if y in Expansion(t, ps[|ps| - 1]) {
      c := ps[|ps| - 1];
    } else {
      c := ExpandAllSource(t, q, y);
    }
  }

  /** A round keeps every concrete entry and every entry of each expansion. */
  lemma RoundCovers(t: Tables, s: seq<int>, c: int, y: int)
    requires AllKnown(s)
    requires IsCode(c) && c in s && y in Expansion(t, c)
    ensures y in Round(t, s)
  {
    KnownPlaceholders(s);
    ExpandAllContains(t, Placeholders(s), c, y);
  }

  /** Every entry of a round is a concrete entry of the list or comes from
      the expansion of one of its placeholders. */
  lemma RoundSource(t: Tables, s: seq<int>, y: int) returns (c: int)
    requires AllKnown(s) && y in Round(t, s)
    ensures (y in s && y >= 0) || (IsCode(c) && c in s && y in Expansion(t, c))
  {
    c := 0;
    KnownPlaceholders(s);
    if y !in Concretes(s) {
      c := ExpandAllSource(t, Placeholders(s), y);
    }
  }

  /** What a list reaches, a list holding all its entries reaches too. */
  lemma ReachesMono(t: Tables, a: seq<int>, b: seq<int>, x: int, k: nat)
    requires forall y :: y in a ==> y in b
    requires Reaches(t, a, x, k)
    ensures Reaches(t, b, x, k)
  {
    if x !in a {
      var c :| IsCode(c) && c in a && Reaches(t, Expansion(t, c), x, k - 1);
      assert c in b;
    }
  }

  /** More expansion steps never reach less. */
  lemma {:induction false} ReachesMoreFuel(t: Tables, s: seq<int>, x: int, k: nat)
    requires Reaches(t, s, x, k)
    ensures Reaches(t, s, x, k + 1)
    decreases k
  {
    if x !in s {
      var c :| IsCode(c) && c in s && Reaches(t, Expansion(t, c), x, k - 1);
      ReachesMoreFuel(t, Expansion(t, c), x, k - 1);
    }
  }

  /** What a round reaches in `k` steps the list reached in `k + 1`. */
  lemma ReachesThroughRound(t: Tables, s: seq<int>, x: int, k: nat)
    requires AllKnown(s) && k >= 1 && Reaches(t, Round(t, s), x, k - 1)
    ensures Reaches(t, s, x, k)
  {
    if x in Round(t, s) {
      var c := RoundSource(t, s, x);
      if !(x in s) {
        assert Reaches(t, Expansion(t, c), x, k - 1);
      }
    } else {
      var c' :| IsCode(c') && c' in Round(t, s) && Reaches(t, Expansion(t, c'), x, k - 2);
      var c := RoundSource(t, s, c');
      assert Reaches(t, Expansion(t, c), x, k - 1);
    }
  }

  /** A concrete index the list reaches, its round reaches with no more steps. */
  lemma ReachesIntoRound(t: Tables, s: seq<int>, x: int, k: nat)
    requires AllKnown(s) && x >= 0 && Reaches(t, s, x, k)
    ensures Reaches(t, Round(t, s), x, k)
  {
    if x !in s {
      var c :| IsCode(c) && c in s && Reaches(t, Expansion(t, c), x, k - 1);
      forall y | y in Expansion(t, c) ensures y in Round(t, s) {
        RoundCovers(t, s, c, y);
      }
      ReachesMono(t, Expansion(t, c), Round(t, s), x, k - 1);
      ReachesMoreFuel(t, Round(t, s), x, k - 1);
    }
  }

  /** A list without placeholders reaches only its own entries. */
  lemma ReachesFlat(t: Tables, s: seq<int>, x: int, k: nat)
    requires NoPlaceholders(s) && Reaches(t, s, x, k)
    ensures x in s
  {
  }

  /** A list without placeholders resolves to its own entries, sorted
      ascending without repeats. */
  lemma ResolveFlatCorrect(t: Tables, s: seq<int>, res: seq<int>)
    requires NoPlaceholders(s) && res == SortUnique(s)
    ensures StrictlySorted(res)
    ensures forall x :: x in res <==> x in s
    ensures forall x :: x in res ==> x >= 0
    ensures forall x, k :: Reaches(t, s, x, k) ==> x in res
  {
    SortUniqueCorrect(s);
    forall x, k | Reaches(t, s, x, k) ensures x in res {
      ReachesFlat(t, s, x, k);
    }
  }

  /** One step of `Resolve` on a successful resolution. */
  lemma ResolveStep(t: Tables, s: seq<int>, r: nat, res: seq<int>)
    requires Resolve(t, s, r) == Success(res)
    ensures r <= 9 && AllKnown(s)
    ensures NoPlaceholders(s) ==> res == SortUnique(s)
    ensures !NoPlaceholders(s) ==> Resolve(t, Round(t, s), r + 1) == Success(res)
  {
  }

  /** A successful resolution is strictly ascending. */
  lemma {:induction false} ResolveSorted(t: Tables, s: seq<int>, r: nat, res: seq<int>)
    requires Resolve(t, s, r) == Success(res)
    ensures StrictlySorted(res)
    decreases if r > 9 then 0 else 10 - r
  {
    ResolveStep(t, s, r, res);
    if NoPlaceholders(s) {
      SortUniqueCorrect(s);
    } else {
      ResolveSorted(t, Round(t, s), r + 1, res);
    }
  }

  /** Soundness of resolution for one resolved entry: it is a concrete index
      the list reaches within the `k` levels left. */
  lemma {:induction false} ResolveSoundAt(t: Tables, s: seq<int>, r: nat, k: nat, res: seq<int>, x: int)
    requires Resolve(t, s, r) == Success(res) && x in res && r + k == 10
    ensures x >= 0 && Reaches(t, s, x, k)
    decreases k
  {
    ResolveStep(t, s, r, res);
    if NoPlaceholders(s) {
      ResolveFlatCorrect(t, s, res);
      assert x in s;
    } else {
      ResolveSoundAt(t, Round(t, s), r + 1, k - 1, res, x);
      ReachesThroughRound(t, s, x, k);
    }
  }

  /** Completeness of resolution: every concrete index the list reaches, at
      any depth, is in the resolved list. */
  lemma {:induction false} ResolveComplete(t: Tables, s: seq<int>, r: nat, res: seq<int>)
    requires Resolve(t, s, r) == Success(res)
    ensures forall x, k :: x >= 0 && Reaches(t, s, x, k) ==> x in res
    decreases if r > 9 then 0 else 10 - r
  {
    ResolveStep(t, s, r, res);
    if NoPlaceholders(s) {
      ResolveFlatCorrect(t, s, res);
    } else {
      ResolveComplete(t, Round(t, s), r + 1, res);
      forall x, k | x >= 0 && Reaches(t, s, x, k) ensures x in res {
        ReachesIntoRound(t, s, x, k);
      }
    }
  }

  /** Resolution keeps the closure: the resolved list is strictly
      ascending, holds no placeholder, keeps every concrete entry, and holds
      every concrete index the list reaches through the tables at any depth
      (`ResolveSoundAt` gives the converse, entry by entry). */
  lemma ResolveCorrect(t: Tables, s: seq<int>, r: nat, res: seq<int>)
    requires Resolve(t, s, r) == Success(res)
    ensures r <= 9
    ensures StrictlySorted(res)
    ensures forall x :: x in res ==> x >= 0
    ensures forall x :: x in s && x >= 0 ==> x in res
    ensures forall x, k :: x >= 0 && Reaches(t, s, x, k) ==> x in res
  {
    ResolveStep(t, s, r, res);
    ResolveSorted(t, s, r, res);
    forall x | x in res ensures x >= 0 {
      ResolveSoundAt(t, s, r, 10 - r, res, x);
    }
    ResolveComplete(t, s, r, res);
    forall x | x in s && x >= 0 ensures x in res {
      assert Reaches(t, s, x, 0);
    }
  }

  /** Concrete indices reached through tables bounded by `n` stay below `n`. */
  lemma {:induction false} ReachesBounded(t: Tables, s: seq<int>, x: int, k: nat, n: int)
    requires Bounded(s, n) && TablesBounded(t, n)
    requires x >= 0 && Reaches(t, s, x, k)
    ensures x < n
    decreases k
  {
    if x !in s {
      var c :| IsCode(c) && c in s && Reaches(t, Expansion(t, c), x, k - 1);
      ExpansionBounded(t, c, n);
      ReachesBounded(t, Expansion(t, c), x, k - 1, n);
    }
  }

  /** Resolving a list whose indices, and whose tables' indices, are valid
      positions of an `n`-variable system yields only valid positions. */
  lemma ResolveBounded(t: Tables, s: seq<int>, r: nat, res: seq<int>, n: int)
    requires Resolve(t, s, r) == Success(res)
    requires Bounded(s, n) && TablesBounded(t, n)
    ensures forall x :: x in res ==> 0 <= x < n
  {
    ResolveStep(t, s, r, res);
    forall x | x in res ensures 0 <= x < n {
      ResolveSoundAt(t, s, r, 10 - r, res, x);
      ReachesBounded(t, s, x, 10 - r, n);
    }
  }

  /** Resolving an already resolved list again, at any level the cap allows,
      leaves it unchanged. */
  lemma ResolveIdempotent(t: Tables, s: seq<int>, r: nat, res: seq<int>, r': nat)
    requires Resolve(t, s, r) == Success(res)
    requires r' <= 9
    ensures Resolve(t, res, r') == Success(res)
  {
    ResolveCorrect(t, s, r, res);
    forall i | 0 <= i < |res| ensures res[i] >= 0 { assert res[i] in res; }
    SortUniqueOfStrict(res);
  }

  /** A placeholder that expands to itself is rejected at the recursion cap
      instead of being expanded forever. */
  lemma {:induction false} SelfExpansionRejected(t: Tables, r: nat)
    requires t.ginfo.phi == [PHI]
    requires r <= 10
    ensures Resolve(t, [PHI], r) == Failure(TooManyRecursionLevels)
    decreases 10 - r
  {
    if r <= 9 {
      assert [PHI][0] < 0;
      assert Placeholders([PHI]) == [PHI] by { assert [PHI][..0] == []; }
      assert Concretes([PHI]) == [] by { assert [PHI][..0] == []; }
      assert ExpandAll(t, [PHI]) == [PHI] by { assert [PHI][..0] == []; }
      assert Round(t, [PHI]) == [PHI];
      SelfExpansionRejected(t, r + 1);
    }
  }

  /** Every placeholder the eight tables list is one of the eight codes. */
  ghost predicate TablesKnown(t: Tables)
  {
    forall c {:trigger Expansion(t, c)} :: IsCode(c) ==> AllKnown(Expansion(t, c))
  }

  /** With known tables, a round of a known list is known again. */
  lemma RoundKnown(t: Tables, s: seq<int>)
    requires AllKnown(s) && TablesKnown(t)
    ensures AllKnown(Round(t, s))
  {
    var n := Round(t, s);
    forall i | 0 <= i < |n| && n[i] < 0 ensures IsCode(n[i]) {
      var c := RoundSource(t, s, n[i]);
      var e := Expansion(t, c);
      var j :| 0 <= j < |e| && e[j] == n[i];
    }
  }

  /** A set of codes each of whose expansions lists a code of the set again:
      the codes on a cycle of the expansion tables, together with any code
      from which such a cycle can be entered. */
  ghost predicate SelfSustaining(t: Tables, cs: set<int>)
  {
    && (forall c :: c in cs ==> IsCode(c))
    && (forall c {:trigger Expansion(t, c)} :: c in cs ==> exists d :: d in cs && d in Expansion(t, c))
  }

  /** A list holding a code that lies on (or leads into) a cycle of the
      expansion tables is rejected at the recursion cap, whatever else it
      holds and from whichever level the resolution starts. */
  lemma {:induction false} CycleRejected(t: Tables, cs: set<int>, s: seq<int>, c: int, r: nat)
    requires SelfSustaining(t, cs) && c in cs && c in s
    requires AllKnown(s) && TablesKnown(t)
    requires r <= 10
    ensures Resolve(t, s, r) == Failure(TooManyRecursionLevels)
    decreases 10 - r
  {
    if r <= 9 {
      var i :| 0 <= i < |s| && s[i] == c;
      assert !NoPlaceholders(s);
      var d :| d in cs && d in Expansion(t, c);
      RoundCovers(t, s, c, d);
      RoundKnown(t, s);
      CycleRejected(t, cs, Round(t, s), d, r + 1);
    }
  }

  /** A code listed in its own expansion is rejected in any list that holds it. */
  lemma SelfReferenceRejected(t: Tables, s: seq<int>, c: int, r: nat)
    requires IsCode(c) && c in s && c in Expansion(t, c)
    requires AllKnown(s) && TablesKnown(t)
    requires r <= 10
    ensures Resolve(t, s, r) == Failure(TooManyRecursionLevels)
  {
    CycleRejected(t, {c}, s, c, r);
  }

  /** `p` is a chain of codes: each one lists the next in its expansion. */
  ghost predicate IsChain(t: Tables, p: seq<int>)
  {
    && |p| >= 1
    && (forall i :: 0 <= i < |p| ==> IsCode(p[i]))
    && (forall i :: 0 <= i < |p| - 1 ==> p[i + 1] in Expansion(t, p[i]))
  }

  /** Some code reaches itself through the expansion tables. */
  ghost predicate Cyclic(t: Tables)
  {
    exists p :: IsChain(t, p) && |p| >= 2 && p[0] == p[|p| - 1]
  }

  /** A chain of `k` codes starts at an entry of `s`. */
  ghost predicate ChainFrom(t: Tables, s: seq<int>, k: nat)
  {
    exists p :: IsChain(t, p) && |p| == k && p[0] in s
  }

  /** No chain starts at a list without placeholders. */
  lemma NoChainFromFlat(t: Tables, s: seq<int>, k: nat)
    requires NoPlaceholders(s)
    ensures !ChainFrom(t, s, k)
  {
    forall p | IsChain(t, p) && |p| == k ensures p[0] !in s {
      assert IsCode(p[0]);
    }
  }

  /** The chains of `k` codes starting in a round are the tails of the chains
      of `k + 1` codes starting in the list. */
  lemma ChainFromRound(t: Tables, s: seq<int>, k: nat)
    requires AllKnown(s) && k >= 1
    ensures ChainFrom(t, Round(t, s), k) <==> ChainFrom(t, s, k + 1)
  {
    var n := Round(t, s);
    if q :| IsChain(t, q) && |q| == k && q[0] in n {
      var c := RoundSource(t, s, q[0]);
      var p := [c] + q;
      assert p[1..] == q;
      assert IsChain(t, p);
    }
    if p :| IsChain(t, p) && |p| == k + 1 && p[0] in s {
      RoundCovers(t, s, p[0], p[1]);
      assert IsChain(t, p[1..]);
    }
  }

  /** With known tables, resolving a known list from level `r` fails exactly
      when a chain of `10 - r` codes starts at one of its entries, and
      succeeds otherwise. */
  lemma {:induction false} ResolveChains(t: Tables, s: seq<int>, r: nat)
    requires AllKnown(s) && TablesKnown(t) && r <= 9
    ensures Resolve(t, s, r).Success? || Resolve(t, s, r) == Failure(TooManyRecursionLevels)
    ensures Resolve(t, s, r) == Failure(TooManyRecursionLevels) <==> ChainFrom(t, s, 10 - r)
    decreases 9 - r
  {
    if NoPlaceholders(s) {
      NoChainFromFlat(t, s, 10 - r);
    } else if r == 9 {
      var i :| 0 <= i < |s| && s[i] < 0;
      assert IsChain(t, [s[i]]);
    } else {
      RoundKnown(t, s);
      ResolveChains(t, Round(t, s), r + 1);
      ChainFromRound(t, s, 9 - r);
    }
  }

  /** Distinct values drawn from `lo .. hi - 1` number at most `hi - lo`:
      a chain of nine codes repeats one of the eight. */
  lemma {:induction false} DistinctInRange(p: seq<int>, lo: int, hi: int)
    requires lo <= hi
    requires forall i :: 0 <= i < |p| ==> lo <= p[i] < hi
    requires forall i, j :: 0 <= i < j < |p| ==> p[i] != p[j]
    ensures |p| <= hi - lo
    decreases hi - lo
  {
    if p != [] {
      assert lo <= p[0] < hi;
      if k :| 0 <= k < |p| && p[k] == hi - 1 {
        var q := p[..k] + p[k + 1..];
        forall i | 0 <= i < |q| ensures q[i] == (if i < k then p[i] else p[i + 1]) {
        }
        DistinctInRange(q, lo, hi - 1);
      } else {
        DistinctInRange(p, lo, hi - 1);
      }
    }
  }

  /** A chain of nine codes or more repeats a code, so its segment between
      the two occurrences is a cycle. */
  lemma LongChainCyclic(t: Tables, p: seq<int>)
    requires IsChain(t, p) && |p| >= 9
    ensures Cyclic(t)
  {
    var q := p[..9];
    if forall i, j :: 0 <= i < j < |q| ==> q[i] != q[j] {
      DistinctInRange(q, DPI, PHI + 1);
    }
    var i, j :| 0 <= i < j < |q| && q[i] == q[j];
    assert IsChain(t, p[i..j + 1]);
  }

  /** Tables without a cycle: every known list resolves, from level 0 or 1. */
  lemma AcyclicResolves(t: Tables, s: seq<int>, r: nat)
    requires AllKnown(s) && TablesKnown(t) && !Cyclic(t)
    requires r <= 1
    ensures Resolve(t, s, r).Success?
  {
    ResolveChains(t, s, r);
    if ChainFrom(t, s, 10 - r) {
      var p :| IsChain(t, p) && |p| == 10 - r && p[0] in s;
      LongChainCyclic(t, p);
    }
  }

  /** A list holding a code that reaches itself is rejected. */
  lemma CyclicChainRejected(t: Tables, p: seq<int>, s: seq<int>, r: nat)
    requires IsChain(t, p) && |p| >= 2 && p[0] == p[|p| - 1] && p[0] in s
    requires AllKnown(s) && TablesKnown(t)
    requires r <= 10
    ensures Resolve(t, s, r) == Failure(TooManyRecursionLevels)
  {
    var cs := set i | 0 <= i < |p| - 1 :: p[i];
    forall c | c in cs ensures exists d :: d in cs && d in Expansion(t, c) {
      var i :| 0 <= i < |p| - 1 && p[i] == c;
      if i + 1 < |p| - 1 {
        assert p[i + 1] in cs;
      } else {
        assert p[0] in cs;
      }
    }
    assert p[0] in cs;
    CycleRejected(t, cs, s, p[0], r);
  }

  /* ------------------------------------------------------------------ */
  /* The scan exactly as written: its bound `i < deps->len` is read again */
  /* on every iteration, so entries appended during a scan are scanned    */
  /* by the same scan.                                                    */

  datatype ScanState = ScanState(d: seq<int>, i: nat)

  /** One iteration of the scan loop of solve_deps as written. */
  function ScanStepAsWritten(t: Tables, st: ScanState): ScanState
    requires st.i < |st.d|
    requires st.d[st.i] < 0 ==> IsCode(st.d[st.i])
  {
    var v := st.d[st.i];
    if v < 0 then ScanState(st.d[..st.i] + st.d[st.i + 1..] + Expansion(t, v), st.i)
    else ScanState(st.d, st.i + 1)
  }

  /** The scan as written after `n` iterations, or where it stopped: at the
      end of the list, or at an unknown code. */
  function ScanAsWritten(t: Tables, st: ScanState, n: nat): ScanState
    decreases n
  {
    if n == 0 || st.i >= |st.d| || (st.d[st.i] < 0 && !IsCode(st.d[st.i])) then st
    else ScanAsWritten(t, ScanStepAsWritten(t, st), n - 1)
  }

  /** As written, the scan over `[PHI]` with `phi_deps == [PHI]` is still at
      its first entry after any number of iterations: the loop never exits,
      so the recursion cap is never consulted. */
  lemma {:induction false} SelfExpansionLoopsAsWritten(t: Tables, n: nat)
    requires t.ginfo.phi == [PHI]
    ensures ScanAsWritten(t, ScanState([PHI], 0), n) == ScanState([PHI], 0)
    ensures ScanAsWritten(t, ScanState([PHI], 0), n).i < |ScanAsWritten(t, ScanState([PHI], 0), n).d|
    decreases n
  {
    if n > 0 {
      assert ScanStepAsWritten(t, ScanState([PHI], 0)) == ScanState([PHI], 0);
      SelfExpansionLoopsAsWritten(t, n - 1);
    }
  }

  /** As written, every entry behind the scan position is concrete; so a
      scan that reaches the end of the list leaves no placeholder and the
      next level substitutes nothing: the depth never exceeds 1. */
  lemma {:induction false} ScanAsWrittenLeavesConcrete(t: Tables, st: ScanState, n: nat)
    requires st.i <= |st.d|
    requires forall j :: 0 <= j < st.i ==> st.d[j] >= 0
    ensures var e := ScanAsWritten(t, st, n);
      e.i <= |e.d| && forall j :: 0 <= j < e.i ==> e.d[j] >= 0
    ensures var e := ScanAsWritten(t, st, n);
      e.i == |e.d| ==> NoPlaceholders(e.d)
    decreases n
  {
    if !(n == 0 || st.i >= |st.d| || (st.d[st.i] < 0 && !IsCode(st.d[st.i]))) {
      var nx := ScanStepAsWritten(t, st);
      assert forall j :: 0 <= j < nx.i ==> nx.d[j] >= 0 by {
        if st.d[st.i] < 0 {
          assert nx.d[..st.i] == st.d[..st.i];
        }
      }
      ScanAsWrittenLeavesConcrete(t, nx, n - 1);
    }
  }
}
