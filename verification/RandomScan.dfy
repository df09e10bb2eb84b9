/**
 * The round-robin counter of the random eviction policies: a 32-bit unsigned counter taken modulo the number of
 * databases. The scan is meant to visit every database once; whether it does depends on the counter wrapping.
 */
module RandomScan {
  const U32: int := 0x1_0000_0000

  /** The database visited at the t-th step of a scan that starts with the counter at n. */
  function Visited(n: nat, t: nat, dbnum: nat): (j: nat)
    requires dbnum > 0
    ensures j < dbnum
  {
    ((n + t) % U32) % dbnum
  }

  /** The counter does not wrap during the scan, or wraps at a multiple of the number of databases. */
  predicate ScanComplete(n: nat, dbnum: nat)
    requires dbnum > 0
  {
    n + dbnum < U32 || n == U32 - 1 || U32 % dbnum == 0
  }

  ghost predicate Visits(n: nat, dbnum: nat, j: nat)
    requires dbnum > 0
  {
    exists t :: 1 <= t <= dbnum && Visited(n, t, dbnum) == j
  }

  lemma DivMod(x: nat, d: nat)
    requires d > 0
    ensures x == d * (x / d) + x % d && 0 <= x % d < d
  {
  }

  lemma ModUnique(x: nat, d: nat, q: int, r: nat)
    requires d > 0 && r < d && x == d * q + r
    ensures x % d == r
  {
    DivMod(x, d);
    var p := x / d;
    assert d * (q - p) == x % d - r;
    ProductGrows(d, q - p);
  }

  lemma ProductGrows(d: nat, e: int)
    requires d > 0
    ensures e >= 1 ==> d * e >= d
    ensures e <= -1 ==> d * e <= 0 - d
  {
  }

  /** Counting modulo d one step further. */
  lemma ModStep(x: nat, d: nat)
    requires d > 1
    ensures (x % d + 1) % d == (x + 1) % d
  {
    DivMod(x, d);
    var q, r := x / d, x % d;
    if r + 1 < d {
      ModUnique(x + 1, d, q, r + 1);
      ModUnique(r + 1, d, 0, r + 1);
    } else {
      assert d * (q + 1) == d * q + d;
      ModUnique(x + 1, d, q + 1, 0);
      ModUnique(r + 1, d, 1, 0);
    }
  }

  /** Among d consecutive numbers after n some one has remainder j. */
  lemma StepTo(n: nat, d: nat, j: nat) returns (t: nat)
    requires d > 0 && j < d
    ensures 1 <= t <= d && (n + t) % d == j
  {
    DivMod(n, d);
    var q, r := n / d, n % d;
    t := if j > r then j - r else j - r + d;
    assert n + t == d * (if j > r then q else q + 1) + j by {
      assert d * (q + 1) == d * q + d;
    }
    ModUnique(n + t, d, if j > r then q else q + 1, j);
  }

  lemma VisitsWhenComplete(n: nat, dbnum: nat, j: nat)
    requires 0 < dbnum < U32 && n < U32 && j < dbnum && ScanComplete(n, dbnum)
    ensures Visits(n, dbnum, j)
  {
    hide Visited;
    if n + dbnum < U32 {
      var t := StepTo(n, dbnum, j);
      VisitedBelow(n, t, dbnum);
    } else if n == U32 - 1 {
      AfterWrap(n, dbnum, j + 1);
    } else {
      var t := StepTo(n, dbnum, j);
      VisitedModulo(n, t, dbnum);
    }
  }

  lemma VisitedBelow(n: nat, t: nat, dbnum: nat)
    requires dbnum > 0 && n + t < U32
    ensures Visited(n, t, dbnum) == (n + t) % dbnum
  {
    ModUnique(n + t, U32, 0, n + t);
  }

  lemma VisitedModulo(n: nat, t: nat, dbnum: nat)
    requires dbnum > 0 && U32 % dbnum == 0 && n + t < 2 * U32
    ensures Visited(n, t, dbnum) == (n + t) % dbnum
  {
    WrapAtMultiple(n + t, dbnum);
  }

  lemma WrapAtMultiple(x: nat, d: nat)
    requires d > 0 && U32 % d == 0 && x < 2 * U32
    ensures (x % U32) % d == x % d
  {
    DivMod(U32, d);
    if x >= U32 {
      var y := x - U32;
      assert x % U32 == y;
      DivMod(y, d);
      var p, q := U32 / d, y / d;
      assert d * (p + q) == d * p + d * q;
      ModUnique(x, d, p + q, y % d);
    }
  }

  /** A database that a wrapping scan leaves out. */
  function Skipped(n: nat, dbnum: nat): (j: int)
    requires dbnum > 0
  {
    var before := U32 - n;
    var r := U32 % dbnum;
    if r + 1 > before - 1 then dbnum - 1 else dbnum + r - before
  }

  /** Before the counter wraps, the step i short of the wrap sees the remainder of -i past that of 2^32. */
  lemma BeforeWrap(n: nat, dbnum: nat, t: nat)
    requires 0 < dbnum < U32 && n + t < U32 <= n + t + dbnum
    ensures Visited(n, t, dbnum) == (U32 % dbnum - (U32 - n - t)) + if U32 - n - t <= U32 % dbnum then 0 else dbnum
  {
    DivMod(U32, dbnum);
    var p, r, i := U32 / dbnum, U32 % dbnum, U32 - n - t;
    assert (n + t) % U32 == n + t;
    if i <= r {
      ModUnique(n + t, dbnum, p, r - i);
    } else {
      assert dbnum * (p - 1) == dbnum * p - dbnum;
      ModUnique(n + t, dbnum, p - 1, dbnum + r - i);
    }
  }

  lemma AfterWrap(n: nat, dbnum: nat, t: nat)
    requires 0 < dbnum && U32 <= n + t < U32 + dbnum && dbnum < U32
    ensures Visited(n, t, dbnum) == n + t - U32
  {
    assert (n + t) % U32 == n + t - U32;
    ModUnique(n + t - U32, dbnum, 0, n + t - U32);
  }

  lemma SkippedWhenIncomplete(n: nat, dbnum: nat, t: nat)
    requires 0 < dbnum < U32 && n < U32 && !ScanComplete(n, dbnum)
    requires 1 <= t <= dbnum
    ensures 0 <= Skipped(n, dbnum) < dbnum && Visited(n, t, dbnum) != Skipped(n, dbnum)
  {
    DivMod(U32, dbnum);
    hide Visited;
    assert 2 <= U32 - n <= dbnum && U32 % dbnum >= 1;
    if n + t < U32 {
      BeforeWrap(n, dbnum, t);
    } else {
      AfterWrap(n, dbnum, t);
    }
  }

  /** The scan visits every database exactly when the condition holds. */
  lemma ScanVisitsAllIffComplete(n: nat, dbnum: nat)
    requires 0 < dbnum < U32 && n < U32
    ensures (forall j: nat :: j < dbnum ==> Visits(n, dbnum, j)) <==> ScanComplete(n, dbnum)
  {
    if ScanComplete(n, dbnum) {
      forall j: nat | j < dbnum ensures Visits(n, dbnum, j) {
        VisitsWhenComplete(n, dbnum, j);
      }
    } else {
      SkippedWhenIncomplete(n, dbnum, 1);
      var j := Skipped(n, dbnum);
      forall t | 1 <= t <= dbnum ensures Visited(n, t, dbnum) != j {
        SkippedWhenIncomplete(n, dbnum, t);
      }
      assert !Visits(n, dbnum, j);
    }
  }
}
