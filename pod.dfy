/**
 * The plain-old-data helpers of `js::` (`PodZero`, `PodArrayZero`,
 * `PodCopy`, `PodEqual`).
 *
 * A pointer `t` into a buffer is an array together with an element
 * offset.  Two pointers into different arrays never overlap.  `memset`,
 * `memcpy` and `memcmp` are modelled by what they are documented to do to
 * the elements involved; the element type's byte representation is not
 * modelled, so "all bytes zero" is a given value `zero` of the element
 * type.
 */
module Pod {
  import opened Machine

  /** The ranges `a[i .. i + n)` and `b[j .. j + n)` share no element (`PodCopy`'s assertions). */
  predicate Disjoint<T>(a: array<T>, i: nat, b: array<T>, j: nat, n: nat) {
    a != b || ((i >= j ==> i - j >= n) && (j >= i ==> j - i >= n))
  }

  /** `memset(t + i, 0, nelem * sizeof(T))`. */
  method Memset<T>(t: array<T>, i: nat, nelem: nat, zero: T)
    requires i + nelem <= t.Length
    modifies t
    ensures t[..] == Overwrite(old(t[..]), i, Repeat(zero, nelem))
  {
    forall k | i <= k < i + nelem {
      t[k] := zero;
    }
  }

  /** `PodZero(T *t)`: zero the one element `t` points at. */
  method PodZeroOne<T>(t: array<T>, i: nat, zero: T)
    requires i < t.Length
    modifies t
    ensures t[..] == old(t[..])[i := zero]
  {
    Memset(t, i, 1, zero);
  }

  /** `PodZero(T *t, size_t nelem)`: zero exactly `t[0 .. nelem)`. */
  method PodZero<T>(t: array<T>, i: nat, nelem: nat, zero: T)
    requires i + nelem <= t.Length
    modifies t
    ensures t[..] == Overwrite(old(t[..]), i, Repeat(zero, nelem))
  {
    Memset(t, i, nelem, zero);
  }

  /** `PodArrayZero(T (&t)[N])`: zero all `N` elements. */
  method PodArrayZero<T>(t: array<T>, zero: T)
    modifies t
    ensures t[..] == Repeat(zero, t.Length)
  {
    Memset(t, 0, t.Length, zero);
  }

  /** `memcpy(dst + di, src + si, nelem * sizeof(T))`; the ranges must not overlap. */
  method Memcpy<T>(dst: array<T>, di: nat, src: array<T>, si: nat, nelem: nat)
    requires di + nelem <= dst.Length && si + nelem <= src.Length
    requires Disjoint(dst, di, src, si, nelem)
    modifies dst
    ensures dst[..] == Overwrite(old(dst[..]), di, old(src[si..si + nelem]))
  {
    forall k | 0 <= k < nelem {
      dst[di + k] := src[si + k];
    }
  }

  /**
   * `PodCopy(dst, src, nelem)`.  Short copies step two pointers through an
   * element loop, long ones call `memcpy`; both leave `dst[0 .. nelem)`
   * equal to the old `src[0 .. nelem)` and every other element as it was.
   */
  method PodCopy<T>(dst: array<T>, di: nat, src: array<T>, si: nat, nelem: nat)
    requires di + nelem <= dst.Length && si + nelem <= src.Length
    requires Disjoint(dst, di, src, si, nelem)
    modifies dst
    ensures dst[..] == Overwrite(old(dst[..]), di, old(src[si..si + nelem]))
  {
    if nelem < 128 {
      var s, d := si, di;
      var srcend := si + nelem;
      while s != srcend
        invariant si <= s <= srcend && d == di + (s - si)
        invariant forall k :: di <= k < d ==> dst[k] == old(src[k - di + si])
        invariant forall k :: 0 <= k < dst.Length && !(di <= k < d) ==> dst[k] == old(dst[k])
        invariant forall k :: s <= k < srcend ==> src[k] == old(src[k])
      {
        dst[d] := src[s];
        s, d := s + 1, d + 1;
      }
      assert forall k :: 0 <= k < dst.Length ==>
        dst[k] == if di <= k < di + nelem then old(src[si..si + nelem])[k - di] else old(dst[k]);
    } else {
      Memcpy(dst, di, src, si, nelem);
    }
  }

  /** `memcmp(a, b, n) == 0` on element sequences; the sign of a non-zero result is not modelled. */
  function MemcmpIsZero<T(==)>(a: seq<T>, b: seq<T>): (r: bool)
    requires |a| == |b|
    ensures r <==> forall k :: 0 <= k < |a| ==> a[k] == b[k]
  {
    if a == [] then true
    else if a[0] != b[0] then false
    else
      var rest := MemcmpIsZero(a[1..], b[1..]);
      assert forall k :: 1 <= k < |a| ==> a[k] == a[1..][k - 1] && b[k] == b[1..][k - 1];
      rest
  }

  /**
   * `PodEqual(one, two, len)`: true iff the first `len` elements agree.
   * Short comparisons loop over the elements, long ones call `memcmp`.
   */
  method PodEqual<T(==)>(one: array<T>, oi: nat, two: array<T>, ti: nat, len: nat) returns (r: bool)
    requires oi + len <= one.Length && ti + len <= two.Length
    ensures r <==> one[oi..oi + len] == two[ti..ti + len]
  {
    if len < 128 {
      var p1, p2 := oi, ti;
      var p1end := oi + len;
      while p1 != p1end
        invariant oi <= p1 <= p1end && p2 == ti + (p1 - oi)
        invariant forall k :: oi <= k < p1 ==> one[k] == two[k - oi + ti]
      {
        if one[p1] != two[p2] {
          assert one[oi..oi + len][p1 - oi] != two[ti..ti + len][p1 - oi];
          return false;
        }
        p1, p2 := p1 + 1, p2 + 1;
      }
      ghost var a, b := one[oi..oi + len], two[ti..ti + len];
      assert forall k :: 0 <= k < len ==> a[k] == one[oi + k] == two[ti + k] == b[k];
      return true;
    }
    r := MemcmpIsZero(one[oi..oi + len], two[ti..ti + len]);
  }
}
