/** Reordering and bandwidth: the part of `_nc_hipert_first_order_arrange_vars`
    that rewrites each variable's index from the Reverse Cuthill-McKee
    permutation and measures the upper and lower bandwidth of the permuted
    Jacobian. The permutation itself comes from `genrcm` and `perm_inverse3`
    of math/rcm.h, which is not part of this model: it enters as a
    `Reorderer`, any function that returns a permutation of 1..n with its
    inverse. */
module Bandwidth {

  /** `perm` and `inv` are mutually inverse bijections of 1..n, 1-based as
      rcm.h returns them: `perm[i]` is the (1-based) variable placed in row
      `i`, `inv[v]` the (1-based) row of variable `v`. */
  predicate IsInversePair(perm: seq<int>, inv: seq<int>, n: nat)
  {
    |perm| == n && |inv| == n &&
    (forall i :: 0 <= i < n ==> 1 <= perm[i] <= n && inv[perm[i] - 1] == i + 1) &&
    (forall v :: 0 <= v < n ==> 1 <= inv[v] <= n && perm[inv[v] - 1] == v + 1)
  }

  function Identity(n: nat): seq<int>
  {
    seq(n, i => i + 1)
  }

  function IdentityOrder(graph: seq<seq<int>>): (seq<int>, seq<int>)
  {
    (Identity(|graph|), Identity(|graph|))
  }

  /** The reordering routine: given each variable's dependency list, a
      permutation of the variables with its inverse. */
  type Reorderer = f: seq<seq<int>> -> (seq<int>, seq<int>)
    | forall graph :: IsInversePair(f(graph).0, f(graph).1, |graph|)
    witness IdentityOrder

  /** Every dependency names one of the `n` variables. */
  predicate DepsIn(graph: seq<seq<int>>, n: int)
  {
    forall v, j :: 0 <= v < |graph| && 0 <= j < |graph[v]| ==> 0 <= graph[v][j] < n
  }

  /** Row `i` of the permuted Jacobian pattern: it holds the variable
      `perm[i] - 1` and lists the rows `inv[d] - 1` of its dependencies `d`. */
  function PermutedRow(graph: seq<seq<int>>, perm: seq<int>, inv: seq<int>, i: int): seq<int>
    requires IsInversePair(perm, inv, |graph|) && DepsIn(graph, |graph|) && 0 <= i < |graph|
  {
    var deps := graph[perm[i] - 1];
    seq(|deps|, j requires 0 <= j < |deps| => inv[deps[j]] - 1)
  }

  /** The permuted Jacobian pattern, row by row. */
  function Permuted(graph: seq<seq<int>>, perm: seq<int>, inv: seq<int>): (rows: seq<seq<int>>)
    requires IsInversePair(perm, inv, |graph|) && DepsIn(graph, |graph|)
  {
    seq(|graph|, i requires 0 <= i < |graph| => PermutedRow(graph, perm, inv, i))
  }

  /** Row of variable `v` after reordering, as line 660 writes it. */
  function NewIndexAsWritten(perm: seq<int>, inv: seq<int>, v: int): int
    requires IsInversePair(perm, inv, |perm|) && 0 <= v < |perm|
  {
    perm[v] - 1
  }

  /** Row of variable `v` after reordering, read from the inverse permutation
      as the bandwidth loop does. */
  function NewIndex(perm: seq<int>, inv: seq<int>, v: int): int
    requires IsInversePair(perm, inv, |perm|) && 0 <= v < |perm|
  {
    inv[v] - 1
  }

  /** The new indices are a bijection onto 0..n-1 and agree with the rows of
      the permuted pattern: the variable placed in row `i` gets index `i`. */
  lemma NewIndexMatchesRows(perm: seq<int>, inv: seq<int>, n: nat)
    requires IsInversePair(perm, inv, n)
    ensures forall v :: 0 <= v < n ==> 0 <= NewIndex(perm, inv, v) < n
    ensures forall i :: 0 <= i < n ==> NewIndex(perm, inv, perm[i] - 1) == i
    ensures forall v, w :: 0 <= v < w < n ==> NewIndex(perm, inv, v) != NewIndex(perm, inv, w)
  {
  }

  /** As written, the index of a variable need not be its row: with the
      three-variable reordering perm = [3, 1, 2] (RCM of the graph in which
      variable 0 depends on 1 and 2), row 1 holds variable 0, whose index is
      set to 2. */
  lemma IndexAsWrittenMisplaces(perm: seq<int>, inv: seq<int>)
    requires perm == [3, 1, 2] && inv == [2, 3, 1]
    ensures IsInversePair(perm, inv, 3)
    ensures perm[1] - 1 == 0 && NewIndexAsWritten(perm, inv, 0) == 2 && NewIndex(perm, inv, 0) == 1
  {
    assert perm[0] == 3 && perm[1] == 1 && perm[2] == 2;
    assert inv[0] == 2 && inv[1] == 3 && inv[2] == 1;
  }

  function Max(a: int, b: int): int
  {
    if a >= b then a else b
  }

  /** Largest forward offset `col - i` in a row, or the accumulator `m`. */
  function RowUpper(row: seq<int>, i: int, m: int): int
  {
    if row == [] then m else Max(RowUpper(row[..|row| - 1], i, m), row[|row| - 1] - i)
  }

  /** Largest backward offset `i - col` in a row, or the accumulator `m`. */
  function RowLower(row: seq<int>, i: int, m: int): int
  {
    if row == [] then m else Max(RowLower(row[..|row| - 1], i, m), i - row[|row| - 1])
  }

  /** `mupper` after scanning the rows of `rows`, starting from 0. */
  function UpperBand(rows: seq<seq<int>>): int
  {
    if rows == [] then 0 else RowUpper(rows[|rows| - 1], |rows| - 1, UpperBand(rows[..|rows| - 1]))
  }

  /** `mlower` after scanning the rows of `rows`, starting from 0. */
  function LowerBand(rows: seq<seq<int>>): int
  {
    if rows == [] then 0 else RowLower(rows[|rows| - 1], |rows| - 1, LowerBand(rows[..|rows| - 1]))
  }

  lemma {:induction false} RowUpperBounds(row: seq<int>, i: int, m: int)
    ensures m <= RowUpper(row, i, m)
    ensures forall j :: 0 <= j < |row| ==> row[j] - i <= RowUpper(row, i, m)
    ensures RowUpper(row, i, m) == m || exists j :: 0 <= j < |row| && row[j] - i == RowUpper(row, i, m)
  {
    if row != [] {
      var q := row[..|row| - 1];
      RowUpperBounds(q, i, m);
      assert forall j :: 0 <= j < |q| ==> q[j] == row[j];
    }
  }

  lemma {:induction false} RowLowerBounds(row: seq<int>, i: int, m: int)
    ensures m <= RowLower(row, i, m)
    ensures forall j :: 0 <= j < |row| ==> i - row[j] <= RowLower(row, i, m)
    ensures RowLower(row, i, m) == m || exists j :: 0 <= j < |row| && i - row[j] == RowLower(row, i, m)
  {
    if row != [] {
      var q := row[..|row| - 1];
      RowLowerBounds(q, i, m);
      assert forall j :: 0 <= j < |q| ==> q[j] == row[j];
    }
  }

  /** Both bandwidths are non-negative and bound every offset of the pattern:
      `col - i <= upper` and `i - col <= lower` for every entry of every row. */
  lemma {:induction false} BandBounds(rows: seq<seq<int>>)
    ensures UpperBand(rows) >= 0 && LowerBand(rows) >= 0
    ensures forall i, j :: 0 <= i < |rows| && 0 <= j < |rows[i]| ==>
      rows[i][j] - i <= UpperBand(rows) && i - rows[i][j] <= LowerBand(rows)
  {
    if rows != [] {
      var q := rows[..|rows| - 1];
      var last := |rows| - 1;
      BandBounds(q);
      RowUpperBounds(rows[last], last, UpperBand(q));
      RowLowerBounds(rows[last], last, LowerBand(q));
      assert forall i :: 0 <= i < |q| ==> q[i] == rows[i];
    }
  }

  /** A positive upper bandwidth is the offset of some entry. */
  lemma {:induction false} UpperAttained(rows: seq<seq<int>>) returns (i: int, j: int)
    requires UpperBand(rows) > 0
    ensures 0 <= i < |rows| && 0 <= j < |rows[i]| && rows[i][j] - i == UpperBand(rows)
  {
    var q := rows[..|rows| - 1];
    var last := |rows| - 1;
    RowUpperBounds(rows[last], last, UpperBand(q));
    if UpperBand(rows) == UpperBand(q) {
      i, j := UpperAttained(q);
      assert q[i] == rows[i];
    } else {
      i := last;
      j :| 0 <= j < |rows[last]| && rows[last][j] - last == UpperBand(rows);
    }
  }

  /** A positive lower bandwidth is the offset of some entry. */
  lemma {:induction false} LowerAttained(rows: seq<seq<int>>) returns (i: int, j: int)
    requires LowerBand(rows) > 0
    ensures 0 <= i < |rows| && 0 <= j < |rows[i]| && i - rows[i][j] == LowerBand(rows)
  {
    var q := rows[..|rows| - 1];
    var last := |rows| - 1;
    RowLowerBounds(rows[last], last, LowerBand(q));
    if LowerBand(rows) == LowerBand(q) {
      i, j := LowerAttained(q);
      assert q[i] == rows[i];
    } else {
      i := last;
      j :| 0 <= j < |rows[last]| && last - rows[last][j] == LowerBand(rows);
    }
  }

  /** In terms of the variables: after reordering, every dependency `d` of
      every variable `v` lies within the band around `v`'s new index. */
  lemma BandCoversDependencies(graph: seq<seq<int>>, perm: seq<int>, inv: seq<int>, v: int, d: int)
    requires IsInversePair(perm, inv, |graph|) && DepsIn(graph, |graph|)
    requires 0 <= v < |graph| && d in graph[v]
    ensures NewIndex(perm, inv, d) - NewIndex(perm, inv, v) <= UpperBand(Permuted(graph, perm, inv))
    ensures NewIndex(perm, inv, v) - NewIndex(perm, inv, d) <= LowerBand(Permuted(graph, perm, inv))
  {
    var rows := Permuted(graph, perm, inv);
    var i := inv[v] - 1;
    assert perm[i] - 1 == v;
    var j :| 0 <= j < |graph[v]| && graph[v][j] == d;
    assert rows[i] == PermutedRow(graph, perm, inv, i);
    assert rows[i][j] == inv[d] - 1;
    BandBounds(rows);
  }

  /** A positive upper bandwidth is the offset of some dependency. */
  lemma UpperAttainedByDependency(graph: seq<seq<int>>, perm: seq<int>, inv: seq<int>) returns (v: int, d: int)
    requires IsInversePair(perm, inv, |graph|) && DepsIn(graph, |graph|)
    requires UpperBand(Permuted(graph, perm, inv)) > 0
    ensures 0 <= v < |graph| && d in graph[v]
    ensures NewIndex(perm, inv, d) - NewIndex(perm, inv, v) == UpperBand(Permuted(graph, perm, inv))
  {
    var rows := Permuted(graph, perm, inv);
    var i, j := UpperAttained(rows);
    assert rows[i] == PermutedRow(graph, perm, inv, i);
    v := perm[i] - 1;
    d := graph[v][j];
  }

  /** A positive lower bandwidth is the offset of some dependency. */
  lemma LowerAttainedByDependency(graph: seq<seq<int>>, perm: seq<int>, inv: seq<int>) returns (v: int, d: int)
    requires IsInversePair(perm, inv, |graph|) && DepsIn(graph, |graph|)
    requires LowerBand(Permuted(graph, perm, inv)) > 0
    ensures 0 <= v < |graph| && d in graph[v]
    ensures NewIndex(perm, inv, v) - NewIndex(perm, inv, d) == LowerBand(Permuted(graph, perm, inv))
  {
    var rows := Permuted(graph, perm, inv);
    var i, j := LowerAttained(rows);
    assert rows[i] == PermutedRow(graph, perm, inv, i);
    v := perm[i] - 1;
    d := graph[v][j];
  }
}
