/** The loop every record comparison runs, and what it makes of the relation it scans. */
module Comparison {

  /**
   * Walks the properties from i on; 0 when all filtered ones agree, otherwise the
   * index after the first one that does not.
   */
  function Scan(n: nat, filter: set<nat>, agree: nat -> bool, i: nat): (rc: nat)
    requires i <= n
    ensures rc == 0 <==> forall k | i <= k < n && k in filter :: agree(k)
    ensures rc > 0 ==> i < rc <= n && rc - 1 in filter && !agree(rc - 1)
    ensures rc > 0 ==> forall k | i <= k < rc - 1 && k in filter :: agree(k)
    decreases n - i
  {
    if i == n then 0
    else if i in filter && !agree(i) then i + 1
    else Scan(n, filter, agree, i + 1)
  }

  /**
   * Two scans return the same code when the relations coincide wherever the first
   * property agrees: a mismatch there ends both scans at once.
   */
  lemma ScanSame(n: nat, filter: set<nat>, a: nat -> bool, b: nat -> bool)
    requires n > 0 && 0 in filter && a(0) == b(0)
    requires a(0) ==> forall k | k < n && k in filter :: a(k) == b(k)
    ensures Scan(n, filter, a, 0) == Scan(n, filter, b, 0)
  {
    var x, y := Scan(n, filter, a, 0), Scan(n, filter, b, 0);
    if a(0) {
      if x > 0 {
        assert !b(x - 1);
      }
      if y > 0 {
        assert !a(y - 1);
      }
    }
  }

  /** Scans of relations that coincide on the filter return the same code. */
  lemma ScanEqual(n: nat, filter: set<nat>, a: nat -> bool, b: nat -> bool)
    requires forall k | k in filter :: a(k) == b(k)
    ensures Scan(n, filter, a, 0) == Scan(n, filter, b, 0)
  {
    var x, y := Scan(n, filter, a, 0), Scan(n, filter, b, 0);
    if x > 0 {
      assert !b(x - 1);
    }
    if y > 0 {
      assert !a(y - 1);
    }
  }

  /** When all but one property agree, that one decides. */
  lemma ScanOne(n: nat, filter: set<nat>, agree: nat -> bool, k: nat)
    requires k < n && k in filter && forall j | j in filter && j != k :: agree(j)
    ensures Scan(n, filter, agree, 0) == if agree(k) then 0 else k + 1
  {
  }

  /**
   * Matching chains when agreement does on what the last pattern sets; what agrees with
   * the last pattern is among what the middle one sets.
   */
  lemma MatchChains(
    n: nat, middle: set<nat>, last: set<nat>, ab: nat -> bool, bc: nat -> bool, ac: nat -> bool
  )
    requires n > 0
    requires forall k: nat | k < n && k in last && bc(k) :: k in middle
    requires forall k: nat | k < n && k in last && ab(k) && bc(k) && (0 in last ==> ab(0) && bc(0)) :: ac(k)
    ensures Scan(n, middle, ab, 0) == 0 && Scan(n, last, bc, 0) == 0 ==> Scan(n, last, ac, 0) == 0
  {
  }

  /**
   * Agreement with a pattern on what the pattern sets is agreement of the projection on
   * everything, when the projection keeps what the pattern sets and nothing else.
   */
  lemma ScanProjection(n: nat, kept: set<nat>, all: set<nat>, whole: nat -> bool, projected: nat -> bool)
    requires forall k: nat | k < n :: k in all
    requires forall k: nat | k < n :: if k in kept then projected(k) == whole(k) else projected(k)
    ensures Scan(n, kept, whole, 0) == 0 <==> Scan(n, all, projected, 0) == 0
  {
    if Scan(n, all, projected, 0) == 0 {
      forall k: nat | k < n && k in kept
        ensures whole(k)
      {
        assert projected(k);
      }
    }
  }
}
