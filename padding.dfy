/** Dependency lists and the block offset that `_nc_hipert_first_order_add_pad`
    applies to them. A dependency entry is either a concrete variable index
    (>= 0) or a negative placeholder code. */
module Padding {

  /** One entry after padding: concrete indices move by `pad`, placeholder codes stay. */
  function Shift(v: int, pad: int): int
  {
    if v >= 0 then v + pad else v
  }

  /** The list that `add_pad` leaves behind, defined entry by entry from the front. */
  function Padded(s: seq<int>, pad: int): seq<int>
  {
    if s == [] then [] else Padded(s[..|s| - 1], pad) + [Shift(s[|s| - 1], pad)]
  }

  /** Every concrete entry of `s` is below `n`. */
  predicate Bounded(s: seq<int>, n: int)
  {
    forall i :: 0 <= i < |s| && s[i] >= 0 ==> s[i] < n
  }

  /** `_nc_hipert_first_order_add_pad`: returns immediately when `pad` is zero,
      otherwise adds `pad` to every entry that is not negative. */
  method AddPad(a: seq<int>, pad: int) returns (r: seq<int>)
    ensures r == Padded(a, pad)
  {
    if pad == 0 {
      PaddedByZero(a);
      return a;
    }
    r := a;
    var i := 0;
    while i < |r|
      invariant 0 <= i <= |r| == |a|
      invariant r[..i] == Padded(a[..i], pad)
      invariant r[i..] == a[i..]
    {
      assert a[..i + 1][..i] == a[..i];
      assert r[i] == a[i] && r[i + 1..] == a[i + 1..] by {
        assert r[i..][0] == a[i..][0] && r[i..][1..] == a[i..][1..];
      }
      if r[i] >= 0 {
        r := r[i := r[i] + pad];
      }
      i := i + 1;
    }
    assert a[..|a|] == a;
    assert r[..|r|] == r;
  }

  /** Padding keeps the length, moves exactly the concrete entries by `pad`
      and leaves every placeholder code where and what it was. */
  lemma {:induction false} PaddedAt(s: seq<int>, pad: int, i: int)
    requires 0 <= i < |s|
    ensures |Padded(s, pad)| == |s|
    ensures s[i] >= 0 ==> Padded(s, pad)[i] == s[i] + pad
    ensures s[i] < 0 ==> Padded(s, pad)[i] == s[i]
  {
    PaddedLength(s, pad);
    if i < |s| - 1 {
      PaddedAt(s[..|s| - 1], pad, i);
    }
  }

  lemma {:induction false} PaddedLength(s: seq<int>, pad: int)
    ensures |Padded(s, pad)| == |s|
  {
    if s != [] {
      PaddedLength(s[..|s| - 1], pad);
    }
  }

  /** A zero offset is the identity, which is why `add_pad` may return early. */
  lemma {:induction false} PaddedByZero(s: seq<int>)
    ensures Padded(s, 0) == s
  {
    if s != [] {
      PaddedByZero(s[..|s| - 1]);
      assert s == s[..|s| - 1] + [s[|s| - 1]];
    }
  }

  /** Two successive non-negative offsets add up: padding a block that was
      already placed at `p` by a further `q` places it at `p + q`. */
  lemma {:induction false} PaddedTwice(s: seq<int>, p: nat, q: nat)
    ensures Padded(Padded(s, p), q) == Padded(s, p + q)
  {
    if s != [] {
      PaddedTwice(s[..|s| - 1], p, q);
      PaddedLength(s[..|s| - 1], p);
      var ps := Padded(s[..|s| - 1], p);
      assert (ps + [Shift(s[|s| - 1], p)])[..|ps|] == ps;
    }
  }

  /** A block whose concrete entries are local indices below `n`, padded by
      `pad`, only names indices in `[pad, pad + n)`: blocks placed one after
      another at their running offsets never collide. */
  lemma {:induction false} PaddedInBlock(s: seq<int>, pad: nat, n: int, i: int)
    requires Bounded(s, n)
    requires 0 <= i < |s| && s[i] >= 0
    ensures |Padded(s, pad)| == |s|
    ensures pad <= Padded(s, pad)[i] < pad + n
  {
    PaddedAt(s, pad, i);
  }

  /** Padding by a non-negative offset keeps the sign of every entry. */
  lemma PaddedSigns(s: seq<int>, pad: nat)
    ensures |Padded(s, pad)| == |s|
    ensures forall i :: 0 <= i < |s| ==> (Padded(s, pad)[i] >= 0 <==> s[i] >= 0)
  {
    PaddedLength(s, pad);
    forall i | 0 <= i < |s|
      ensures Padded(s, pad)[i] >= 0 <==> s[i] >= 0
    {
      PaddedAt(s, pad, i);
    }
  }

  /** A list bounded by `n` stays bounded by `pad + n` after padding. */
  lemma PaddedBounded(s: seq<int>, pad: nat, n: int)
    requires Bounded(s, n)
    ensures Bounded(Padded(s, pad), pad + n)
  {
    PaddedLength(s, pad);
    forall i | 0 <= i < |s| && Padded(s, pad)[i] >= 0
      ensures Padded(s, pad)[i] < pad + n
    {
      PaddedAt(s, pad, i);
    }
  }
}
