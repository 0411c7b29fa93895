// Records of a node and the pure sequence operations the node code is
// specified against: the rotated view of a circular array, sorted insertion,
// removal of one record, and the two lookups (leaf and internal).
module Entries {
  import Ring

  /** `int64_t` key. */
  newtype Key = x: int | -0x8000_0000_0000_0000 <= x < 0x8000_0000_0000_0000

  /** `LONG_MAX`, the key of a default-constructed record. */
  const MaxKey: Key := 0x7fff_ffff_ffff_ffff

  /**
   * A `char*` stored in a node: null, the address of a caller's value, or
   * a child node.  P is the node type of the layout using it.
   */
  datatype Ptr<P> = Null | Val(addr: int) | Child(page: P)

  /** One record: key and pointer. */
  datatype Entry<P> = Entry(key: Key, ptr: Ptr<P>)

  // ---------------------------------------------------------------------
  // The rotated view of a circular array

  /** The first k elements of the circular read of a starting at slot f. */
  function RotPrefix<T>(a: seq<T>, f: int, k: nat): (r: seq<T>)
    requires |a| > 0 && k <= |a|
    ensures |r| == k
  {
    if k == 0 then [] else RotPrefix(a, f, k - 1) + [a[(f + k - 1) % |a|]]
  }

  /**
   * The physical array a read circularly starting at slot f: element d is
   * a[(f + d) % |a|] (lemma RotAt).
   */
  function Rot<T>(a: seq<T>, f: int): (r: seq<T>)
    requires |a| > 0
    ensures |r| == |a|
  {
    RotPrefix(a, f, |a|)
  }

  lemma {:induction false} RotPrefixAt<T>(a: seq<T>, f: int, k: nat, d: int)
    requires |a| > 0 && k <= |a| && 0 <= d < k
    ensures RotPrefix(a, f, k)[d] == a[(f + d) % |a|]
  {
    if d < k - 1 {
      RotPrefixAt(a, f, k - 1, d);
    }
  }

  lemma RotAt<T>(a: seq<T>, f: int, d: int)
    requires |a| > 0 && 0 <= d < |a|
    ensures Rot(a, f)[d] == a[(f + d) % |a|]
  {
    RotPrefixAt(a, f, |a|, d);
  }

  lemma SlotInjective(f: int, j: int, k: int, n: nat)
    requires n > 0 && 0 <= j < n && 0 <= k < n
    requires (f + j) % n == (f + k) % n
    ensures j == k
  {
    var qj, qk, r := (f + j) / n, (f + k) / n, (f + j) % n;
    assert f + j == qj * n + r;
    assert f + k == qk * n + r;
    assert j - k == (qj - qk) * n;
    if qj > qk {
      Ring.MulAtLeast(qj - qk, n);
      assert false;
    } else if qk > qj {
      assert k - j == (qk - qj) * n;
      Ring.MulAtLeast(qk - qj, n);
      assert false;
    }
  }

  lemma SlotOfOffset(f: int, d: int, n: nat)
    requires n > 0
    ensures (f + d) % n == (f + d % n) % n
  {
    assert d == (d / n) * n + d % n;
    Ring.AddMultiple(f + d % n, n, d - d % n, d / n);
  }

  /** Writing physical slot (f + d) % n writes offset d % n of the view from f. */
  lemma RotUpdate<T>(a: seq<T>, f: int, d: int, v: T)
    requires |a| > 0
    ensures Rot(a[(f + d) % |a| := v], f) == Rot(a, f)[d % |a| := v]
  {
    var n := |a|;
    SlotOfOffset(f, d, n);
    var l := Rot(a[(f + d) % n := v], f);
    var r := Rot(a, f)[d % n := v];
    forall j | 0 <= j < n
      ensures l[j] == r[j]
    {
      RotAt(a[(f + d) % n := v], f, j);
      RotAt(a, f, j);
      if (f + j) % n == (f + d) % n {
        SlotInjective(f, j, d % n, n);
      }
    }
  }

  /** ((g % n) + j) % n == (g + j) % n */
  lemma ModAddLeft(g: int, j: int, n: nat)
    requires n > 0
    ensures (g % n + j) % n == (g + j) % n
  {
    assert g == (g / n) * n + g % n;
    Ring.AddMultiple(g % n + j, n, g - g % n, g / n);
  }

  /** A view read from one slot earlier: its last element comes first. */
  function StepBack<T>(v: seq<T>): (r: seq<T>)
    requires |v| > 0
    ensures |r| == |v| && r[0] == v[|v| - 1]
    ensures forall j :: 0 < j < |v| ==> r[j] == v[j - 1]
  {
    [v[|v| - 1]] + v[..|v| - 1]
  }

  /** A view read from one slot later: its first element goes last. */
  function StepForward<T>(v: seq<T>): (r: seq<T>)
    requires |v| > 0
    ensures |r| == |v| && r[|v| - 1] == v[0]
    ensures forall j :: 0 <= j < |v| - 1 ==> r[j] == v[j + 1]
  {
    v[1..] + [v[0]]
  }

  /** Moving the start one slot back puts the last element of the view first. */
  lemma RotBack<T>(a: seq<T>, f: int)
    requires |a| > 0
    ensures Rot(a, (f - 1) % |a|) == StepBack(Rot(a, f))
  {
    var n := |a|;
    var l := Rot(a, (f - 1) % n);
    var v := Rot(a, f);
    var r := StepBack(v);
    forall j | 0 <= j < n
      ensures l[j] == r[j]
    {
      ModAddLeft(f - 1, j, n);
      RotAt(a, (f - 1) % n, j);
      if j == 0 {
        RotAt(a, f, n - 1);
        Ring.AddMultiple(f - 1, n, n, 1);
      } else {
        RotAt(a, f, j - 1);
      }
    }
  }

  /** Moving the start one slot forward puts the first element of the view last. */
  lemma RotForward<T>(a: seq<T>, f: int)
    requires |a| > 0
    ensures Rot(a, (f + 1) % |a|) == StepForward(Rot(a, f))
  {
    var n := |a|;
    var l := Rot(a, (f + 1) % n);
    var v := Rot(a, f);
    var r := StepForward(v);
    forall j | 0 <= j < n
      ensures l[j] == r[j]
    {
      ModAddLeft(f + 1, j, n);
      RotAt(a, (f + 1) % n, j);
      if j == n - 1 {
        RotAt(a, f, 0);
        Ring.AddMultiple(f, n, n, 1);
      } else {
        RotAt(a, f, j + 1);
      }
    }
  }

  /** With the start at slot 0 the view is the array itself. */
  lemma RotZero<T>(a: seq<T>)
    requires |a| > 0
    ensures Rot(a, 0) == a
  {
    forall j | 0 <= j < |a|
      ensures Rot(a, 0)[j] == a[j]
    {
      RotAt(a, 0, j);
      Ring.SmallMod(j, |a|);
    }
  }

  /** The slot of the last record of a window of up to c records starting at slot f of a ring of c slots. */
  function LastSlot(f: nat, n: nat, c: nat): (r: nat)
    requires f < c && n <= c
    ensures r < c && r == (f + n - 1) % c
  {
    if f + n == 0 then
      Ring.MinusOneMod(c);
      c - 1
    else if f + n <= c then
      Ring.SmallMod(f + n - 1, c);
      f + n - 1
    else
      Ring.ModOfDecomposition(f + n - 1, c, 1, f + n - 1 - c);
      f + n - 1 - c
  }

  /**
   * `move_num` of a split of a full ring (n == c - 1 live records from
   * slot f): with m the slot of offset n / 2 and last the slot of offset
   * n - 1, the wrap-aware difference is the number of offsets after n / 2.
   */
  lemma SplitMoveCount(f: nat, n: nat, c: nat, m: int, last: int)
    requires 4 <= c && f < c && n == c - 1
    requires m == (f + n / 2) % c && last == (f + n - 1) % c
    ensures (if m < last then last - m else c - m + last) == n - 1 - n / 2
  {
    assert m == LastSlot(f, n / 2 + 1, c);
    assert last == LastSlot(f, n, c);
  }

  /**
   * The first n elements of the circular read from slot f: one slice of a
   * when they fit before the end, else the tail from f followed by the head.
   */
  lemma RotSlice<T>(a: seq<T>, f: nat, n: nat)
    requires f < |a| && n <= |a|
    ensures f + n <= |a| ==> Rot(a, f)[..n] == a[f..f + n]
    ensures f + n > |a| ==> Rot(a, f)[..n] == a[f..] + a[..f + n - |a|]
  {
    var c := |a|;
    if f + n <= c {
      forall d | 0 <= d < n
        ensures Rot(a, f)[d] == a[f..f + n][d]
      {
        RotAt(a, f, d);
        Ring.SmallMod(f + d, c);
      }
    } else {
      forall d | 0 <= d < n
        ensures Rot(a, f)[d] == (a[f..] + a[..f + n - c])[d]
      {
        RotAt(a, f, d);
        if f + d < c {
          Ring.SmallMod(f + d, c);
        } else {
          Ring.ModOfDecomposition(f + d, c, 1, f + d - c);
        }
      }
    }
  }

  /** Offset d modulo n for -1 <= d < n: offset -1 is the last slot. */
  function Wrap(d: int, n: nat): (r: nat)
    requires -1 <= d < n && n > 0
    ensures r < n && (d >= 0 ==> r == d)
  {
    if d < 0 then n - 1 else d
  }

  lemma WrapIsMod(d: int, n: nat)
    requires -1 <= d < n && n > 0
    ensures Wrap(d, n) == d % n
  {
    if d < 0 { Ring.MinusOneMod(n); } else { Ring.SmallMod(d, n); }
  }

  /** Slot d + 1 modulo n for d < n. */
  function Succ(d: nat, n: nat): (r: nat)
    requires d < n
    ensures r < n && (d + 1 < n ==> r == d + 1)
  {
    if d + 1 == n then 0 else d + 1
  }

  lemma SuccIsMod(d: nat, n: nat)
    requires d < n
    ensures Succ(d, n) == (d + 1) % n
  {
    if d + 1 == n {
      Ring.ModOfDecomposition(n, n, 1, 0);
    } else {
      Ring.SmallMod(d + 1, n);
    }
  }

  // ---------------------------------------------------------------------
  // Half shifts on a view (offsets relative to the old first slot)

  /** s[i], named so that quantifiers over views fire only where a proof mentions At. */
  function At<T>(s: seq<T>, i: int): T
    requires 0 <= i < |s|
  {
    s[i]
  }

  /**
   * The view V0 after the first i records of the left half moved one slot
   * left (offset 0 wraps to offset |V0| - 1).
   */
  ghost predicate LeftShifted<T>(V: seq<T>, V0: seq<T>, i: int)
    requires |V| == |V0| && 0 <= i < |V0|
  {
    (forall d :: 0 <= d < i - 1 ==> At(V, d) == At(V0, d + 1)) &&
    (forall d :: (if i == 0 then 0 else i - 1) <= d < |V0| - 1 ==> At(V, d) == At(V0, d)) &&
    V[|V0| - 1] == (if i == 0 then V0[|V0| - 1] else V0[0])
  }

  lemma LeftShiftStep<T>(V: seq<T>, V0: seq<T>, c: nat, i: int)
    requires |V| == |V0| == c && 0 <= i && i + 2 < c
    requires LeftShifted(V, V0, i)
    ensures V[i] == V0[i]
    ensures LeftShifted(V[Wrap(i - 1, c) := V[i]], V0, i + 1)
  {
    var U := V[Wrap(i - 1, c) := V[i]];
    assert At(V, i) == At(V0, i);
    forall d | 0 <= d < i
      ensures At(U, d) == At(V0, d + 1)
    {
      if d < i - 1 { assert At(V, d) == At(V0, d + 1); }
    }
    forall d | i <= d < c - 1
      ensures At(U, d) == At(V0, d)
    {
      assert At(V, d) == At(V0, d);
    }
  }

  /** After the new element lands at offset i - 1 and the start moves back, the window is V0[..n] with e at i. */
  lemma LeftShiftLand<T>(V: seq<T>, V0: seq<T>, c: nat, i: int, n: int, e: T)
    requires |V| == |V0| == c && 0 <= i <= n && n + 1 < c
    requires LeftShifted(V, V0, i)
    ensures var W := V[Wrap(i - 1, c) := e];
      StepBack(W)[..n + 1] == InsertAt(V0[..n], i, e) &&
      forall d :: i <= d < c - 1 ==> At(W, d) == At(V0, d)
  {
    var W := V[Wrap(i - 1, c) := e];
    var L := StepBack(W)[..n + 1];
    var R := InsertAt(V0[..n], i, e);
    forall k | 0 <= k < n + 1
      ensures L[k] == R[k]
    {
      if 0 < k <= i - 1 {
        assert At(V, k - 1) == At(V0, k);
      } else if i < k {
        assert At(V, k - 1) == At(V0, k - 1);
      }
    }
    forall d | i <= d < c - 1
      ensures At(W, d) == At(V0, d)
    {
      assert At(V, d) == At(V0, d);
    }
  }

  /**
   * The view V0 after the records of the right half above offset i moved
   * one slot right (n is the old record count).
   */
  ghost predicate RightShifted<T>(V: seq<T>, V0: seq<T>, i: int, n: int)
    requires |V| == |V0| && -1 <= i < n < |V0|
  {
    (forall d :: 0 <= d < |V0| && (d <= i + 1 || n < d) ==> At(V, d) == At(V0, d)) &&
    (forall d :: i + 2 <= d <= n ==> At(V, d) == At(V0, d - 1))
  }

  lemma RightShiftStep<T>(V: seq<T>, V0: seq<T>, i: int, n: int)
    requires |V| == |V0| && 0 <= i < n && n + 1 < |V0|
    requires RightShifted(V, V0, i, n)
    ensures V[i] == V0[i]
    ensures RightShifted(V[i + 1 := V[i]], V0, i - 1, n)
  {
    var U := V[i + 1 := V[i]];
    assert At(V, i) == At(V0, i);
    forall d | 0 <= d < |V0| && (d <= i || n < d)
      ensures At(U, d) == At(V0, d)
    {
      assert At(V, d) == At(V0, d);
    }
    forall d | i + 1 <= d <= n
      ensures At(U, d) == At(V0, d - 1)
    {
      if d > i + 1 { assert At(V, d) == At(V0, d - 1); }
    }
  }

  /** After the new element lands at offset i + 1, the window is V0[..n] with e at i + 1. */
  lemma RightShiftLand<T>(V: seq<T>, V0: seq<T>, i: int, n: int, e: T)
    requires |V| == |V0| && -1 <= i < n && n + 1 < |V0|
    requires RightShifted(V, V0, i, n)
    ensures V[i + 1 := e][..n + 1] == InsertAt(V0[..n], i + 1, e)
  {
    var L := V[i + 1 := e][..n + 1];
    var R := InsertAt(V0[..n], i + 1, e);
    forall k | 0 <= k < n + 1
      ensures L[k] == R[k]
    {
      if k <= i { assert At(V, k) == At(V0, k); }
      else if k > i + 1 { assert At(V, k) == At(V0, k - 1); }
    }
  }

  /**
   * The view V0 during the left-half removal of offset p: the offsets
   * i + 1 .. p hold their left neighbours, and once offset 0 has been
   * processed (i < 0) it holds z.
   */
  ghost predicate RemovedLeft<T>(V: seq<T>, V0: seq<T>, i: int, p: int, z: T)
    requires |V| == |V0| > 0 && p < |V0|
  {
    (forall d :: 0 <= d < |V0| && (d <= i || p < d) ==> At(V, d) == At(V0, d)) &&
    (forall d :: i < d <= p && 0 < d ==> At(V, d) == At(V0, d - 1)) &&
    (i < 0 <= p ==> V[0] == z)
  }

  lemma RemoveLeftStep<T>(V: seq<T>, V0: seq<T>, i: int, p: int, z: T)
    requires |V| == |V0| > 0 && 0 <= i <= p < |V0|
    requires RemovedLeft(V, V0, i, p, z)
    ensures V[i] == V0[i]
    ensures i > 0 ==> RemovedLeft(V[i := V[i - 1]], V0, i - 1, p, z)
    ensures i == 0 ==> RemovedLeft(V[0 := z], V0, -1, p, z)
  {
    assert At(V, i) == At(V0, i);
    if i > 0 {
      var U := V[i := V[i - 1]];
      assert At(V, i - 1) == At(V0, i - 1);
      forall d | 0 <= d < |V0| && (d <= i - 1 || p < d)
        ensures At(U, d) == At(V0, d)
      {
        assert At(V, d) == At(V0, d);
      }
      forall d | i - 1 < d <= p && 0 < d
        ensures At(U, d) == At(V0, d - 1)
      {
        if d > i { assert At(V, d) == At(V0, d - 1); }
      }
    } else {
      var U := V[0 := z];
      forall d | 0 <= d < |V0| && p < d
        ensures At(U, d) == At(V0, d)
      {
        assert At(V, d) == At(V0, d);
      }
      forall d | -1 < d <= p && 0 < d
        ensures At(U, d) == At(V0, d - 1)
      {
        assert At(V, d) == At(V0, d - 1);
      }
    }
  }

  /** After the left-half removal the start moves one slot forward: the window is V0[..n] without offset p. */
  lemma LeftRemoveLand<T>(V: seq<T>, V0: seq<T>, n: nat, p: int, z: T)
    requires |V| == |V0| > 0 && 0 <= p < n <= |V0|
    requires RemovedLeft(V, V0, -1, p, z)
    ensures StepForward(V)[..n - 1] == RemoveAt(V0[..n], p)
  {
    var L, R := StepForward(V)[..n - 1], RemoveAt(V0[..n], p);
    forall k | 0 <= k < n - 1
      ensures L[k] == R[k]
    {
      if k + 1 <= p {
        assert At(V, k + 1) == At(V0, k);
      } else {
        assert At(V, k + 1) == At(V0, k + 1);
      }
    }
  }

  /**
   * The view V0 during the right-half removal of offset p (n live
   * records): the offsets p .. i - 1 hold their right neighbours, and
   * once the last live offset has been processed (i == n) it holds z.
   */
  ghost predicate RemovedRight<T>(V: seq<T>, V0: seq<T>, i: int, p: int, n: int, z: T)
    requires |V| == |V0| && 0 < n <= |V0|
  {
    (forall d :: 0 <= d < |V0| && (d < p || i <= d) ==> At(V, d) == At(V0, d)) &&
    (forall d :: 0 <= d && p <= d < i && d < n - 1 ==> At(V, d) == At(V0, d + 1)) &&
    (p < n <= i ==> V[n - 1] == z)
  }

  lemma RemoveRightStep<T>(V: seq<T>, V0: seq<T>, i: int, p: int, n: int, z: T)
    requires |V| == |V0| && 0 <= p <= i < n <= |V0|
    requires RemovedRight(V, V0, i, p, n, z)
    ensures V[i] == V0[i]
    ensures i + 1 < n ==> V[i + 1] == V0[i + 1] && RemovedRight(V[i := V[i + 1]], V0, i + 1, p, n, z)
    ensures i + 1 == n ==> RemovedRight(V[i := z], V0, n, p, n, z)
  {
    assert At(V, i) == At(V0, i);
    var U := V[i := if i + 1 < n then V[i + 1] else z];
    if i + 1 < n {
      assert At(V, i + 1) == At(V0, i + 1);
    }
    forall d | 0 <= d < |V0| && (d < p || i + 1 <= d)
      ensures At(U, d) == At(V0, d)
    {
      assert At(V, d) == At(V0, d);
    }
    forall d | 0 <= d && p <= d < i + 1 && d < n - 1
      ensures At(U, d) == At(V0, d + 1)
    {
      if d < i { assert At(V, d) == At(V0, d + 1); }
    }
  }

  /** After the right-half removal the window is V0[..n] without offset p. */
  lemma RightRemoveLand<T>(V: seq<T>, V0: seq<T>, n: nat, p: int, z: T)
    requires |V| == |V0| && 0 <= p < n <= |V0|
    requires RemovedRight(V, V0, n, p, n, z)
    ensures V[..n - 1] == RemoveAt(V0[..n], p)
  {
    var L, R := V[..n - 1], RemoveAt(V0[..n], p);
    forall k | 0 <= k < n - 1
      ensures L[k] == R[k]
    {
      if k < p {
        assert At(V, k) == At(V0, k);
      } else {
        assert At(V, k) == At(V0, k + 1);
      }
    }
  }

  // ---------------------------------------------------------------------
  // The slots a half shift leaves alone

  /**
   * V, a view starting one slot before V0 (after a left-half insertion
   * into a window of n records), holds V0's records from offset n / 2 on
   * in the same slots: only the slot before the window and the first
   * n / 2 slots of the window can have been written.
   */
  ghost predicate HalfStaysBack<T>(V: seq<T>, V0: seq<T>, n: nat)
    requires |V| == |V0|
  {
    forall d :: n / 2 <= d < |V0| - 1 ==> At(V, d + 1) == At(V0, d)
  }

  /**
   * V, a view starting one slot after V0 (after a left-half removal from
   * a window of n records), holds V0's records from offset n / 2 on in
   * the same slots: only the first n / 2 slots of the window can have
   * been written.
   */
  ghost predicate HalfStaysForward<T>(V: seq<T>, V0: seq<T>, n: nat)
    requires |V| == |V0|
  {
    forall d :: 0 < d && n / 2 <= d < |V0| ==> At(V, d - 1) == At(V0, d)
  }

  /**
   * V, a view starting where V0 does, holds V0's records below offset lo
   * and above offset hi: only offsets lo .. hi can have been written.
   */
  ghost predicate OutsideStays<T>(V: seq<T>, V0: seq<T>, lo: int, hi: int)
    requires |V| == |V0|
  {
    forall d :: 0 <= d < |V0| && (d < lo || hi < d) ==> At(V, d) == At(V0, d)
  }

  /** A right shift that stopped at or after offset lo writes only offsets lo .. n. */
  lemma RightShiftStays<T>(V: seq<T>, V0: seq<T>, i: int, n: int, lo: int, e: T)
    requires |V| == |V0| && -1 <= i < n < |V0| && lo <= i + 1
    requires RightShifted(V, V0, i, n)
    ensures OutsideStays(V[i + 1 := e], V0, lo, n)
  {
    forall d | 0 <= d < |V0| && (d < lo || n < d)
      ensures At(V[i + 1 := e], d) == At(V0, d)
    {
      assert At(V, d) == At(V0, d);
    }
  }

  /** A left-half removal of offset p below n / 2 leaves the slots from offset n / 2 on alone. */
  lemma LeftRemoveStays<T>(V: seq<T>, V0: seq<T>, n: nat, p: int, z: T)
    requires |V| == |V0| > 0 && 0 <= p < n / 2 && n <= |V0|
    requires RemovedLeft(V, V0, -1, p, z)
    ensures HalfStaysForward(StepForward(V), V0, n)
  {
    forall d | 0 < d && n / 2 <= d < |V0|
      ensures At(StepForward(V), d - 1) == At(V0, d)
    {
      assert At(V, d) == At(V0, d);
    }
  }

  /** A right-half removal of offset p at or above n / 2 writes only offsets n / 2 .. n - 1. */
  lemma RightRemoveStays<T>(V: seq<T>, V0: seq<T>, n: nat, p: int, z: T)
    requires |V| == |V0| && n / 2 <= p < n <= |V0|
    requires RemovedRight(V, V0, n, p, n, z)
    ensures OutsideStays(V, V0, n / 2, n - 1)
  {
    forall d | 0 <= d < |V0| && (d < n / 2 || n - 1 < d)
      ensures At(V, d) == At(V0, d)
    {
      assert At(V, d) == At(V0, d);
    }
  }

  // ---------------------------------------------------------------------
  // Sorted record sequences

  /** Keys never decrease (equal keys are allowed: insertion does not reject duplicates). */
  predicate Sorted<P>(s: seq<Entry<P>>)
  {
    forall i, j :: 0 <= i < j < |s| ==> KeyAt(s, i) <= KeyAt(s, j)
  }

  /**
   * The key at position i.  Sorted is stated through it so that its
   * pairwise quantifier fires only where a proof asks for it
   * (lemma SortedPairs), not on every element of every sequence.
   */
  function KeyAt<P>(s: seq<Entry<P>>, i: int): Key
    requires 0 <= i < |s|
  {
    s[i].key
  }

  lemma SortedPairs<P>(s: seq<Entry<P>>)
    requires Sorted(s)
    ensures forall i, j :: 0 <= i < j < |s| ==> s[i].key <= s[j].key
  {
    forall i, j | 0 <= i < j < |s|
      ensures s[i].key <= s[j].key
    {
      assert KeyAt(s, i) <= KeyAt(s, j);
    }
  }

  /** The keys of a record sequence. */
  function KeysOf<P>(s: seq<Entry<P>>): (r: seq<Key>)
    ensures |r| == |s|
    ensures forall i :: 0 <= i < |s| ==> r[i] == s[i].key
  {
    seq(|s|, i requires 0 <= i < |s| => s[i].key)
  }

  /** s with e placed at position p. */
  function InsertAt<T>(s: seq<T>, p: nat, e: T): (r: seq<T>)
    requires p <= |s|
    ensures |r| == |s| + 1 && r[p] == e
    ensures forall i :: 0 <= i < p ==> r[i] == s[i]
    ensures forall i :: p < i <= |s| ==> r[i] == s[i - 1]
  {
    s[..p] + [e] + s[p..]
  }

  /** Insertion adds exactly one occurrence of e. */
  lemma InsertAtMultiset<T>(s: seq<T>, p: nat, e: T)
    requires p <= |s|
    ensures multiset(InsertAt(s, p, e)) == multiset(s) + multiset{e}
  {
    assert s == s[..p] + s[p..];
  }

  /** s without the element at position p. */
  function RemoveAt<T>(s: seq<T>, p: nat): (r: seq<T>)
    requires p < |s|
    ensures |r| == |s| - 1
    ensures forall i :: 0 <= i < p ==> r[i] == s[i]
    ensures forall i :: p <= i < |r| ==> r[i] == s[i + 1]
  {
    s[..p] + s[p + 1..]
  }

  /** Removal takes away exactly one occurrence of s[p]. */
  lemma RemoveAtMultiset<T>(s: seq<T>, p: nat)
    requires p < |s|
    ensures multiset(RemoveAt(s, p)) == multiset(s) - multiset{s[p]}
  {
    assert s == s[..p] + [s[p]] + s[p + 1..];
  }

  /**
   * Scanning forward from position i, the first position whose key is not
   * below k (|s| if there is none): where a forward shifting loop stops.
   */
  function LowerBound<P>(s: seq<Entry<P>>, k: Key, i: nat): (r: nat)
    requires i <= |s|
    ensures i <= r <= |s|
    ensures forall j :: i <= j < r ==> s[j].key < k
    ensures r < |s| ==> k <= s[r].key
    decreases |s| - i
  {
    if i == |s| || k <= s[i].key then i else LowerBound(s, k, i + 1)
  }

  /**
   * Scanning backward from position i - 1, the position just after the last
   * key not above k (0 if there is none): where a backward shifting loop stops.
   */
  function UpperBound<P>(s: seq<Entry<P>>, k: Key, i: nat): (r: nat)
    requires i <= |s|
    ensures r <= i
    ensures forall j :: r <= j < i ==> k < s[j].key
    ensures r > 0 ==> s[r - 1].key <= k
    decreases i
  {
    if i == 0 || s[i - 1].key <= k then i else UpperBound(s, k, i - 1)
  }

  /**
   * Where a circular node puts a new key: a key below the middle record
   * goes to the left half (the entries before it shift one slot left),
   * any other key goes to the right half (the entries after it shift
   * one slot right).
   */
  function CircularInsertPos<P>(s: seq<Entry<P>>, k: Key): (r: nat)
    ensures r <= |s|
  {
    if |s| > 0 && k < s[|s| / 2].key then LowerBound(s, k, 0) else UpperBound(s, k, |s|)
  }

  /** The logical records after a circular insertion of e. */
  function CircularInsert<P>(s: seq<Entry<P>>, e: Entry<P>): seq<Entry<P>>
  {
    InsertAt(s, CircularInsertPos(s, e.key), e)
  }

  /** The records after a linear (shift-right) insertion of e. */
  function LinearInsert<P>(s: seq<Entry<P>>, e: Entry<P>): seq<Entry<P>>
  {
    InsertAt(s, UpperBound(s, e.key, |s|), e)
  }

  /** Putting e at a position where no smaller-or-equal order is broken keeps s sorted. */
  lemma InsertAtSorted<P>(s: seq<Entry<P>>, p: nat, e: Entry<P>)
    requires Sorted(s) && p <= |s|
    requires p > 0 ==> s[p - 1].key <= e.key
    requires p < |s| ==> e.key <= s[p].key
    ensures Sorted(InsertAt(s, p, e))
  {
    SortedPairs(s);
  }

  /** A circular insertion keeps the records sorted and adds exactly e. */
  lemma CircularInsertSorted<P>(s: seq<Entry<P>>, e: Entry<P>)
    requires Sorted(s)
    ensures Sorted(CircularInsert(s, e))
    ensures multiset(CircularInsert(s, e)) == multiset(s) + multiset{e}
  {
    var p := CircularInsertPos(s, e.key);
    if |s| > 0 && e.key < s[|s| / 2].key {
      if p > 0 { assert s[p - 1].key < e.key; }
    } else {
      if p < |s| { assert e.key < s[p].key; }
    }
    InsertAtSorted(s, p, e);
    InsertAtMultiset(s, p, e);
  }

  /** The left half of a circular insertion puts e where LowerBound stops. */
  lemma CircularInsertLeft<P>(s: seq<Entry<P>>, e: Entry<P>, i: nat)
    requires Sorted(s) && 0 < |s| && e.key < s[|s| / 2].key
    requires i == LowerBound(s, e.key, 0)
    ensures CircularInsert(s, e) == InsertAt(s, i, e) && Sorted(InsertAt(s, i, e))
  {
    CircularInsertSorted(s, e);
  }

  /**
   * The left half of a circular insertion on views: V1 is V0 after the
   * first i records moved one slot left; landing e at offset i - 1 and
   * moving the start back gives the circular insertion of e into the
   * first n records, and leaves the slots from offset n / 2 on alone.
   */
  lemma LeftInsertView<P>(V0: seq<Entry<P>>, V1: seq<Entry<P>>, c: nat, n: nat, i: nat, e: Entry<P>)
    requires |V1| == |V0| == c && 0 < n && n + 1 < c && Sorted(V0[..n])
    requires e.key < V0[n / 2].key && i == LowerBound(V0[..n], e.key, 0)
    requires LeftShifted(V1, V0, i)
    ensures var W := V1[Wrap(i - 1, c) := e];
      StepBack(W)[..n + 1] == CircularInsert(V0[..n], e) &&
      Sorted(StepBack(W)[..n + 1]) &&
      HalfStaysBack(StepBack(W), V0, n)
  {
    var s := V0[..n];
    assert s[n / 2] == V0[n / 2];
    LeftShiftLand(V1, V0, c, i, n, e);
    CircularInsertLeft(s, e, i);
    var W := V1[Wrap(i - 1, c) := e];
    forall d | n / 2 <= d < c - 1
      ensures At(StepBack(W), d + 1) == At(V0, d)
    {
      assert At(W, d) == At(V0, d);
    }
  }

  /** The right half of a circular insertion puts e where UpperBound stops. */
  lemma CircularInsertRight<P>(s: seq<Entry<P>>, e: Entry<P>, i: nat)
    requires Sorted(s) && !(0 < |s| && e.key < s[|s| / 2].key)
    requires i == UpperBound(s, e.key, |s|)
    ensures CircularInsert(s, e) == InsertAt(s, i, e) && Sorted(InsertAt(s, i, e))
  {
    CircularInsertSorted(s, e);
  }
  /**
   * A right-shifting insertion on views: V1 is V0 after the records above
   * offset i moved one slot right; landing e at offset i + 1, where the
   * backward scan from n stops, inserts e into the first n records at its
   * rank.
   */
  lemma RightInsertView<P>(V0: seq<Entry<P>>, V1: seq<Entry<P>>, n: nat, i: int, e: Entry<P>)
    requires |V1| == |V0| && n + 1 < |V0| && Sorted(V0[..n])
    requires -1 <= i < n && i + 1 == UpperBound(V0[..n], e.key, n)
    requires RightShifted(V1, V0, i, n)
    ensures V1[i + 1 := e][..n + 1] == LinearInsert(V0[..n], e)
    ensures Sorted(V1[i + 1 := e][..n + 1])
  {
    RightShiftLand(V1, V0, i, n, e);
    LinearInsertSorted(V0[..n], e);
  }


  /** A linear insertion keeps the records sorted and adds exactly e. */
  lemma LinearInsertSorted<P>(s: seq<Entry<P>>, e: Entry<P>)
    requires Sorted(s)
    ensures Sorted(LinearInsert(s, e))
    ensures multiset(LinearInsert(s, e)) == multiset(s) + multiset{e}
  {
    var p := UpperBound(s, e.key, |s|);
    if p < |s| { assert e.key < s[p].key; }
    InsertAtSorted(s, p, e);
    InsertAtMultiset(s, p, e);
  }

  /** UpperBound stops at the only position that splits s into keys <= k and keys > k. */
  lemma {:induction false} UpperBoundUnique<P>(s: seq<Entry<P>>, k: Key, i: nat, r0: nat)
    requires r0 <= i <= |s|
    requires forall j :: r0 <= j < i ==> k < s[j].key
    requires r0 > 0 ==> s[r0 - 1].key <= k
    ensures UpperBound(s, k, i) == r0
    decreases i
  {
    if i > r0 {
      UpperBoundUnique(s, k, i - 1, r0);
    }
  }

  /**
   * For a key not yet present both halves agree: the circular insertion
   * puts it at the same place as a plain sorted insertion.
   */
  lemma CircularInsertIsLinear<P>(s: seq<Entry<P>>, e: Entry<P>)
    requires Sorted(s)
    requires e.key !in KeysOf(s)
    ensures CircularInsert(s, e) == LinearInsert(s, e)
  {
    var lo := LowerBound(s, e.key, 0);
    SortedPairs(s);
    assert lo < |s| ==> KeysOf(s)[lo] != e.key;
    forall j | lo <= j < |s|
      ensures e.key < s[j].key
    {
      assert s[lo].key <= s[j].key;
    }
    UpperBoundUnique(s, e.key, |s|, lo);
  }

  /**
   * A record whose key is at least every key of sorted s goes to the end,
   * by either insertion: how a split fills its new sibling in key order.
   */
  lemma AppendInsert<P>(s: seq<Entry<P>>, e: Entry<P>)
    requires Sorted(s)
    requires forall j :: 0 <= j < |s| ==> s[j].key <= e.key
    ensures CircularInsert(s, e) == s + [e] && LinearInsert(s, e) == s + [e]
  {
    if |s| > 0 {
      assert s[|s| - 1].key <= e.key && s[|s| / 2].key <= e.key;
    }
    assert InsertAt(s, |s|, e) == s + [e];
  }

  /** Any slice of sorted records is sorted. */
  lemma SortedSlice<P>(s: seq<Entry<P>>, lo: nat, hi: nat)
    requires Sorted(s) && lo <= hi <= |s|
    ensures Sorted(s[lo..hi])
  {
    SortedPairs(s);
    var u := s[lo..hi];
    forall a, b | 0 <= a < b < |u|
      ensures KeyAt(u, a) <= KeyAt(u, b)
    {
      assert u[a] == s[lo + a] && u[b] == s[lo + b];
    }
  }

  /** Inserting into a prefix and appending the rest is inserting into the whole at the same place. */
  lemma InsertAtAppend<T>(l: seq<T>, q: nat, e: T, r: seq<T>)
    requires q <= |l|
    ensures InsertAt(l, q, e) + r == InsertAt(l + r, q, e)
  {
    assert (l + r)[..q] == l[..q];
    assert (l + r)[q..] == l[q..] + r;
  }

  /** A key below the record at h has the same upper bound in the first h records as in all of s. */
  lemma UpperBoundBelow<P>(s: seq<Entry<P>>, h: nat, k: Key)
    requires Sorted(s) && h < |s| && k < s[h].key
    ensures UpperBound(s[..h], k, h) == UpperBound(s, k, |s|)
  {
    var L := s[..h];
    var q := UpperBound(L, k, h);
    forall j | q <= j < |s|
      ensures k < s[j].key
    {
      if j < h {
        assert L[j] == s[j];
      } else {
        assert KeyAt(s, h) <= KeyAt(s, j) || j == h;
      }
    }
    if q > 0 {
      assert L[q - 1] == s[q - 1];
    }
    UpperBoundUnique(s, k, |s|, q);
  }

  /**
   * A key below the record at h lands in the first h records: inserting it
   * there and appending the rest is inserting it into the whole.
   */
  lemma InsertBelowSplit<P>(s: seq<Entry<P>>, h: nat, e: Entry<P>)
    requires Sorted(s) && h < |s| && e.key < s[h].key
    ensures LinearInsert(s[..h], e) + s[h..] == LinearInsert(s, e)
  {
    UpperBoundBelow(s, h, e.key);
    InsertAtAppend(s[..h], UpperBound(s[..h], e.key, h), e, s[h..]);
    assert s[..h] + s[h..] == s;
  }

  /** Inserting into a suffix after a prefix is inserting into the whole, shifted by the prefix. */
  lemma InsertAtPrepend<T>(l: seq<T>, q: nat, e: T, r: seq<T>)
    requires q <= |r|
    ensures l + InsertAt(r, q, e) == InsertAt(l + r, |l| + q, e)
  {
    assert (l + r)[..|l| + q] == l + r[..q];
    assert (l + r)[|l| + q..] == r[q..];
  }

  /** A key at or above the record at h has its upper bound in s[h..], shifted by h. */
  lemma UpperBoundAbove<P>(s: seq<Entry<P>>, h: nat, k: Key)
    requires h < |s| && s[h].key <= k
    ensures h + UpperBound(s[h..], k, |s| - h) == UpperBound(s, k, |s|)
  {
    var R := s[h..];
    var q := UpperBound(R, k, |R|);
    assert R[0] == s[h];
    assert q > 0;
    forall j | h + q <= j < |s|
      ensures k < s[j].key
    {
      assert s[j] == R[j - h];
    }
    assert s[h + q - 1] == R[q - 1];
    UpperBoundUnique(s, k, |s|, h + q);
  }

  /**
   * A key at or above the record at h lands in the records from h on:
   * the first h records followed by that insertion is the insertion into
   * the whole.
   */
  lemma InsertAboveSplit<P>(s: seq<Entry<P>>, h: nat, e: Entry<P>)
    requires h < |s| && s[h].key <= e.key
    ensures s[..h] + LinearInsert(s[h..], e) == LinearInsert(s, e)
  {
    var l, r := s[..h], s[h..];
    assert |l| == h && |r| == |s| - h && l + r == s;
    UpperBoundAbove(s, h, e.key);
    InsertAtPrepend(l, UpperBound(r, e.key, |r|), e, r);
  }

  /** A slice lo .. i - 1 of sorted records is sorted, and its keys are at most the key at i. */
  lemma SortedSliceBelow<P>(s: seq<Entry<P>>, lo: nat, i: nat)
    requires Sorted(s) && lo <= i < |s|
    ensures Sorted(s[lo..i])
    ensures forall j :: 0 <= j < i - lo ==> s[lo..i][j].key <= s[i].key
  {
    SortedPairs(s);
    var u := s[lo..i];
    forall a, b | 0 <= a < b < |u|
      ensures KeyAt(u, a) <= KeyAt(u, b)
    {
      assert u[a] == s[lo + a] && u[b] == s[lo + b];
    }
    forall j | 0 <= j < i - lo
      ensures u[j].key <= s[i].key
    {
      assert u[j] == s[lo + j];
    }
  }

  /** s with the pointers of positions lo .. hi - 1 nulled, keys kept. */
  function ClearPtrs<P>(s: seq<Entry<P>>, lo: nat, hi: nat): (r: seq<Entry<P>>)
    requires lo <= hi <= |s|
    ensures |r| == |s|
    ensures forall j :: 0 <= j < |s| ==> r[j] == if lo <= j < hi then Entry(s[j].key, Null) else s[j]
  {
    seq(|s|, j requires 0 <= j < |s| => if lo <= j < hi then Entry(s[j].key, Null) else s[j])
  }

  /** Nulling one more pointer extends the cleared range by one position. */
  lemma ClearPtrsStep<P>(s: seq<Entry<P>>, lo: nat, i: nat)
    requires lo <= i < |s|
    ensures ClearPtrs(s, lo, i)[i := Entry(s[i].key, Null)] == ClearPtrs(s, lo, i + 1)
  {
  }

  // ---------------------------------------------------------------------
  // Removal

  /** The last position below i whose key is k, or -1. */
  function FindBackward<P>(s: seq<Entry<P>>, k: Key, i: nat): (r: int)
    requires i <= |s|
    ensures -1 <= r < i
    ensures r >= 0 ==> s[r].key == k
    ensures forall j :: r < j < i ==> s[j].key != k
    decreases i
  {
    if i == 0 then -1 else if s[i - 1].key == k then i - 1 else FindBackward(s, k, i - 1)
  }

  /** The first position at or after i whose key is k, or -1. */
  function FindForward<P>(s: seq<Entry<P>>, k: Key, i: nat): (r: int)
    requires i <= |s|
    ensures r == -1 || i <= r < |s|
    ensures r >= 0 ==> s[r].key == k
    ensures forall j :: i <= j < (if r < 0 then |s| else r) ==> s[j].key != k
    decreases |s| - i
  {
    if i == |s| then -1 else if s[i].key == k then i else FindForward(s, k, i + 1)
  }

  /**
   * The forward search from i is j exactly when j is the first position at
   * or after i holding k (or -1 and no such position).
   */
  lemma FindForwardAt<P>(s: seq<Entry<P>>, k: Key, i: nat, j: int)
    requires i <= |s| && (j == -1 || i <= j < |s|)
    requires j >= 0 ==> s[j].key == k
    requires forall x :: i <= x < (if j < 0 then |s| else j) ==> s[x].key != k
    ensures FindForward(s, k, i) == j
  {
    var r := FindForward(s, k, i);
    assert r >= 0 ==> s[r].key == k;
  }

  /** The pointer of the first record with key k among a[lo .. hi), or Null. */
  function ScanHit<P>(a: seq<Entry<P>>, k: Key, lo: nat, hi: nat): (r: Ptr<P>)
    requires lo <= hi <= |a|
    ensures r != Null ==> exists i :: lo <= i < hi && a[i].key == k && a[i].ptr == r
  {
    var j := FindForward(a[..hi], k, lo);
    if j < 0 then Null else a[j].ptr
  }

  /**
   * A window a[f .. f + |L|) holding the sequence L: the forward search over
   * the array prefix from f finds L's first k, moved by f.
   */
  lemma WindowSearch<P>(a: seq<Entry<P>>, L: seq<Entry<P>>, f: nat, k: Key)
    requires f + |L| <= |a|
    requires forall d :: 0 <= d < |L| ==> L[d] == a[f + d]
    ensures ScanHit(a, k, f, f + |L|) == Lookup(L, k)
  {
    var r, s := FindForward(L, k, 0), a[..f + |L|];
    var j := if r < 0 then -1 else r + f;
    forall x | f <= x < (if j < 0 then |s| else j)
      ensures s[x].key != k
    {
      assert s[x] == L[x - f];
    }
    if j >= 0 {
      assert s[j] == L[r];
    }
    FindForwardAt(s, k, f, j);
  }

  /**
   * A wrapped window whose first m records fill the tail a[f ..] of the
   * array: a key below L[m] can only be among those m, so the search over
   * a[f ..] finds L's first k.
   */
  lemma WrappedLowSearch<P>(a: seq<Entry<P>>, L: seq<Entry<P>>, f: nat, m: nat, k: Key)
    requires |a| == f + m && m < |L| && StrictlySorted(L)
    requires forall d :: 0 <= d < m ==> L[d] == a[f + d]
    requires k < L[m].key
    ensures ScanHit(a, k, f, |a|) == Lookup(L, k)
  {
    assert a[..|a|] == a;
    var r := FindForward(L, k, 0);
    var j := if r < 0 then -1 else r + f;
    StrictlySortedAt(L, m, r);
    forall x | f <= x < (if j < 0 then |a| else j)
      ensures a[x].key != k
    {
      assert a[x] == L[x - f];
    }
    if j >= 0 {
      assert a[j] == L[r];
    }
    FindForwardAt(a, k, f, j);
  }

  /**
   * A wrapped window whose records from m on fill the head a[.. |L| - m) of
   * the array: a key at or above L[m] can only be among those, so the search
   * over a[0 .. |L| - m) finds L's first k, moved by -m.
   */
  lemma WrappedHighSearch<P>(a: seq<Entry<P>>, L: seq<Entry<P>>, m: nat, k: Key)
    requires m < |L| && |L| - m <= |a| && StrictlySorted(L)
    requires forall d :: m <= d < |L| ==> L[d] == a[d - m]
    requires L[m].key <= k
    ensures ScanHit(a, k, 0, |L| - m) == Lookup(L, k)
  {
    var r, s := FindForward(L, k, 0), a[..|L| - m];
    StrictlySortedAt(L, r, m);
    var j := if r < 0 then -1 else r - m;
    forall x | 0 <= x < (if j < 0 then |s| else j)
      ensures s[x].key != k
    {
      assert s[x] == L[x + m];
    }
    if j >= 0 {
      assert s[j] == L[r];
    }
    FindForwardAt(s, k, 0, j);
  }

  /** Keys strictly increasing: sorted and distinct. */
  predicate StrictlySorted<P>(s: seq<Entry<P>>)
  {
    forall i, j :: 0 <= i < j < |s| ==> KeyAt(s, i) < KeyAt(s, j)
  }

  /** Two positions of strictly sorted records: the earlier key is the smaller. */
  lemma StrictlySortedAt<P>(s: seq<Entry<P>>, i: int, j: int)
    requires StrictlySorted(s)
    ensures 0 <= i < j < |s| ==> s[i].key < s[j].key
  {
    if 0 <= i < j < |s| {
      assert KeyAt(s, i) < KeyAt(s, j);
    }
  }

  /**
   * The record a circular node removes for key k, or -1: a key below the
   * middle record is looked for in the left half only (nearest the middle
   * first), any other key in the right half only.
   */
  function CircularRemovePos<P>(s: seq<Entry<P>>, k: Key): (r: int)
    ensures -1 <= r < |s|
    ensures r >= 0 ==> s[r].key == k
  {
    if |s| > 0 && k < s[|s| / 2].key then FindBackward(s, k, |s| / 2)
    else FindForward(s, k, |s| / 2)
  }

  /** In sorted records the half-restricted search finds k exactly when k is present. */
  lemma CircularRemoveFinds<P>(s: seq<Entry<P>>, k: Key)
    requires Sorted(s)
    ensures CircularRemovePos(s, k) >= 0 <==> k in KeysOf(s)
  {
    var h := |s| / 2;
    SortedPairs(s);
    if k in KeysOf(s) {
      var j :| 0 <= j < |s| && KeysOf(s)[j] == k;
      if |s| > 0 && k < s[h].key {
        assert j < h;
      } else if j < h {
        assert s[j].key <= s[h].key;
        assert s[h].key == k;
      }
    }
  }

  /** Removing the record a circular node picks keeps the records sorted. */
  lemma RemoveAtSorted<P>(s: seq<Entry<P>>, p: nat)
    requires Sorted(s) && p < |s|
    ensures Sorted(RemoveAt(s, p))
  {
    SortedPairs(s);
  }

  /** Nulling the pointer of record j keeps every key in place, and so keeps the records sorted. */
  lemma ClearPtrKeys<P>(V: seq<Entry<P>>, j: nat, n: nat)
    requires j < |V| && n <= |V|
    ensures KeysOf(V[j := Entry(V[j].key, Null)]) == KeysOf(V)
    ensures Sorted(V[..n]) ==> Sorted(V[j := Entry(V[j].key, Null)][..n])
  {
    var W := V[j := Entry(V[j].key, Null)];
    assert forall i :: 0 <= i < |V| ==> W[i].key == V[i].key;
    if Sorted(V[..n]) {
      forall i, k | 0 <= i < k < n
        ensures KeyAt(W[..n], i) <= KeyAt(W[..n], k)
      {
        assert KeyAt(V[..n], i) <= KeyAt(V[..n], k);
      }
    }
  }

  // ---------------------------------------------------------------------
  // Lookups

  /** The pointer of the first record with key k, Null if there is none. */
  function Lookup<P>(s: seq<Entry<P>>, k: Key): (r: Ptr<P>)
    ensures r != Null ==> exists i :: 0 <= i < |s| && s[i].key == k && s[i].ptr == r
  {
    var i := FindForward(s, k, 0);
    if i < 0 then Null else s[i].ptr
  }

  /** The first position at or after i whose key is above k, or |s|. */
  function FirstAbove<P>(s: seq<Entry<P>>, k: Key, i: nat): (r: nat)
    requires i <= |s|
    ensures i <= r <= |s|
    ensures forall j :: i <= j < r ==> s[j].key <= k
    ensures r < |s| ==> k < s[r].key
    decreases |s| - i
  {
    if i == |s| || k < s[i].key then i else FirstAbove(s, k, i + 1)
  }

  /**
   * The child an internal node routes k to, before the sibling and null
   * checks: leftmost below the first key, otherwise the pointer of the
   * record just before the first key above k.
   */
  function Route<P>(s: seq<Entry<P>>, k: Key, leftmost: Ptr<P>): Ptr<P>
    requires |s| > 0
  {
    if k < s[0].key then leftmost else s[FirstAbove(s, k, 1) - 1].ptr
  }

  /**
   * The draft layout's internal scan from position i below hi: while the
   * keys stay above k the pointer is replaced by theirs, and the first key
   * not above k stops the scan.  Starting on a key not above k it keeps
   * `init`.
   */
  function LastAbove<P>(s: seq<Entry<P>>, k: Key, i: nat, hi: nat, init: Ptr<P>): (r: Ptr<P>)
    requires i <= hi <= |s|
    ensures i < hi && s[i].key <= k ==> r == init
    decreases hi - i
  {
    if i == hi || s[i].key <= k then init else LastAbove(s, k, i + 1, hi, s[i].ptr)
  }

  /**
   * In sorted records the routed child is the one whose key range holds k:
   * record j covers keys from its own key up to the next record's key.
   */
  lemma RouteCovers<P>(s: seq<Entry<P>>, k: Key, leftmost: Ptr<P>)
    requires |s| > 0 && Sorted(s)
    ensures k < s[0].key ==> Route(s, k, leftmost) == leftmost
    ensures s[0].key <= k ==>
      var j := FirstAbove(s, k, 1) - 1;
      Route(s, k, leftmost) == s[j].ptr && s[j].key <= k &&
      (forall i :: 0 <= i <= j ==> s[i].key <= k) &&
      (forall i :: j < i < |s| ==> k < s[i].key)
  {
    if s[0].key <= k {
      var j := FirstAbove(s, k, 1) - 1;
      SortedPairs(s);
      forall i | j < i < |s|
        ensures k < s[i].key
      {
        assert s[j + 1].key <= s[i].key;
      }
    }
  }
}
