/**
 * Version and paging arithmetic of pkg/util/utility.go, with Go's fixed-width
 * integers written out: `int` is 64-bit two's complement and `uint64` wraps
 * modulo 2^64.
 */
module Util {

  const MinInt64: int := -0x8000_0000_0000_0000
  const MaxInt64: int := 0x7fff_ffff_ffff_ffff
  const TwoTo64: int := 0x1_0000_0000_0000_0000

  type Int64 = x: int | MinInt64 <= x <= MaxInt64
  type Uint64 = x: int | 0 <= x < TwoTo64

  /** Versions are reset once they pass this bound. */
  const VersionBound: int := 10000
  /** The largest page size PageToLimitOffset hands out. */
  const MaxPerPage: int := 100

  /** Go's `x + 1` on a 64-bit `int`: MaxInt64 + 1 wraps to MinInt64. */
  function AddOne(x: Int64): (r: Int64)
    ensures x < MaxInt64 ==> r == x + 1
    ensures x == MaxInt64 ==> r == MinInt64
  {
    if x == MaxInt64 then MinInt64 else x + 1
  }

  /** The next optimistic-concurrency version: one more, or 0 past the bound. */
  function VersionInc(cv: Int64): (r: Int64)
    ensures cv + 1 <= VersionBound ==> r == cv + 1
    ensures VersionBound < cv + 1 <= MaxInt64 ==> r == 0
    ensures cv == MaxInt64 ==> r == MinInt64
    ensures r != cv
    ensures 0 <= cv <= VersionBound ==> 0 <= r <= VersionBound
  {
    var nv := AddOne(cv);
    if nv > VersionBound then 0 else nv
  }

  /** The version after n successive increments. */
  function IncTimes(cv: Int64, n: nat): Int64
  {
    if n == 0 then cv else VersionInc(IncTimes(cv, n - 1))
  }

  /** While the bound is not passed, n increments add n. */
  lemma {:induction false} IncTimesAdds(cv: Int64, n: nat)
    requires 0 <= cv <= VersionBound
    requires n <= VersionBound - cv
    ensures IncTimes(cv, n) == cv + n
  {
    if n > 0 {
      IncTimesAdds(cv, n - 1);
    }
  }

  /** a increments followed by b increments are a + b increments. */
  lemma {:induction false} IncTimesCompose(cv: Int64, a: nat, b: nat)
    ensures IncTimes(cv, a + b) == IncTimes(IncTimes(cv, a), b)
  {
    if b > 0 {
      IncTimesCompose(cv, a, b - 1);
    }
  }

  /** Every version in 0..VersionBound comes back after exactly VersionBound + 1 increments. */
  lemma VersionCycle(cv: Int64)
    requires 0 <= cv <= VersionBound
    ensures IncTimes(cv, VersionBound + 1) == cv
  {
    IncTimesAdds(cv, VersionBound - cv);
    IncTimesCompose(cv, VersionBound - cv, 1);
    IncTimesCompose(cv, VersionBound - cv + 1, cv);
    IncTimesAdds(0, cv);
  }

  /** Go's `a * b` on `uint64`. */
  function MulUint64(a: Uint64, b: Uint64): (r: Uint64)
    ensures r == (a * b) % TwoTo64
    ensures a * b < TwoTo64 ==> r == a * b
  {
    var p := a * b;
    if p < TwoTo64 then p else p % TwoTo64
  }

  /**
   * Turns a page number and page size into SQL `OFFSET` and `LIMIT`: page 0 counts as
   * page 1 and the page size is capped at MaxPerPage.
   */
  function PageToLimitOffset(page: Uint64, perPage: Uint64): (r: (Uint64, Uint64))
    ensures r.1 == if perPage > MaxPerPage then MaxPerPage else perPage
    ensures r.1 <= MaxPerPage
    ensures page <= 1 ==> r.0 == 0
    ensures r.0 == (r.1 * ((if page < 1 then 1 else page) - 1)) % TwoTo64
    ensures page >= 1 && r.1 * (page - 1) < TwoTo64 ==> r.0 == r.1 * (page - 1)
  {
    var page' := if page < 1 then 1 else page;
    var perPage' := if perPage > MaxPerPage then MaxPerPage else perPage;
    (MulUint64(perPage', page' - 1), perPage')
  }

  /** Realistic pages never overflow: below 2^57 the offset is the exact product. */
  lemma OffsetExact(page: Uint64, perPage: Uint64)
    requires 1 <= page < 0x200_0000_0000_0000
    ensures PageToLimitOffset(page, perPage).0 == PageToLimitOffset(page, perPage).1 * (page - 1)
  {
    var limit := PageToLimitOffset(page, perPage).1;
    MulMonotone(limit, MaxPerPage, page - 1);
  }

  lemma MulMonotone(a: nat, b: nat, c: nat)
    requires a <= b
    ensures a * c <= b * c
  {
  }

  /** A huge page number wraps the offset around to 0 instead of failing. */
  lemma HugePageWraps()
    ensures PageToLimitOffset(0x8000_0000_0000_0001, 2) == (0, 2)
  {
    assert 2 * 0x8000_0000_0000_0000 == TwoTo64;
  }
}
