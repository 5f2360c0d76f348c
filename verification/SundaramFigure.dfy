/** The number of unnecessary cross-outs the Sundaram sieves print, in closed form. It sets cross-outs of
    indices, which never touch the even numbers, against all numbers not listed, so it can be negative. It
    depends only on the bound and on which claims were carried through, and grows with them. */
module SundaramFigure {
  import opened Primes
  import opened PrimeGap
  import opened SieveMachine
  import opened SieveInvariant
  import opened SieveExactness
  import opened SieveAbandonment
  import opened SieveAccounting
  import opened SieveReport
  import opened SieveTheorems

  // Cross-outs of one claim

  /** The last loop value of claim `pos` that hits a cell up to m. */
  function LastBelow(n: nat, pos: nat, m: nat): int {
    if pos > m then -1
    else if n / 4 <= (m - pos) / (2 * pos + 1) then n / 4
    else (m - pos) / (2 * pos + 1)
  }

  lemma LastBelowIs(n: nat, pos: nat, m: nat, at: nat)
    ensures at <= LastBelow(n, pos, m) <==> at <= n / 4 && at + pos + 2 * (pos * at) <= m
  {
    assert at + pos + 2 * (pos * at) == pos + (2 * pos + 1) * at;
    if pos <= m {
      QuotientAbove(m - pos, 2 * pos + 1, at);
    } else {
      assert (2 * pos + 1) * at >= 0;
    }
  }

  /** How many cells up to m claim `pos` crosses out. */
  function HitsBelow(n: nat, pos: nat, m: nat): nat {
    if LastBelow(n, pos, m) >= pos then LastBelow(n, pos, m) - pos + 1 else 0
  }

  /** How many cells claim `pos` crosses out. */
  function OddHits(n: nat, pos: nat): nat {
    HitsBelow(n, pos, n)
  }

  lemma {:induction false} HitsFrom(c: Config, pos: nat, at: nat)
    requires c.Valid() && c.kind.Sundaram?
    ensures var last := LastBelow(c.bound, pos, c.bound);
      HitCount(c, pos, at) == if at <= last then last - at + 1 else 0
    decreases c.bound + 1 - at
  {
    LastBelowIs(c.bound, pos, c.bound, at);
    if c.Guard(at) {
      HitsFrom(c, pos, at + 1);
    }
  }

  /** The cross-outs of the kept claims below `hi`. */
  function OddMultiples(n: nat, kept: set<nat>, hi: nat): nat {
    if hi == 0 then 0 else OddMultiples(n, kept, hi - 1) + if hi - 1 in kept then OddHits(n, hi - 1) else 0
  }

  lemma {:induction false} KeptOddMultiples(c: Config, kept: set<nat>, hi: nat)
    requires c.Valid() && c.kind.Sundaram?
    ensures KeptHits(c, kept, hi) == OddMultiples(c.bound, kept, hi)
  {
    if hi > 0 {
      KeptOddMultiples(c, kept, hi - 1);
      HitsFrom(c, hi - 1, hi - 1);
    }
  }

  lemma {:induction false} NoneAbove(n: nat, kept: set<nat>, lo: nat, hi: nat)
    requires lo <= hi && forall p | p in kept :: p < lo
    ensures OddMultiples(n, kept, hi) == OddMultiples(n, kept, lo)
    decreases hi
  {
    if lo < hi {
      NoneAbove(n, kept, lo, hi - 1);
    }
  }

  lemma {:induction false} OneMoreMultiple(n: nat, kept: set<nat>, p: nat, hi: nat)
    requires p !in kept
    ensures OddMultiples(n, kept + {p}, hi) == OddMultiples(n, kept, hi) + if p < hi then OddHits(n, p) else 0
  {
    if hi > 0 {
      OneMoreMultiple(n, kept, p, hi - 1);
    }
  }

  // Listed numbers

  /** Claim k crosses out index i. */
  predicate Strikes(n: nat, k: nat, i: nat) {
    exists at | k <= at <= n / 4 :: OddFactors(k, at, i)
  }

  lemma StrikesAre(c: Config, k: nat, i: nat)
    requires c.Valid() && c.kind.Sundaram?
    ensures Strikes(c.bound, k, i) <==> Crosses(c, k, i)
  {
    CrossesMeans(c, k, i);
  }

  lemma StruckIndex(k: nat, at: nat, i: nat)
    ensures OddFactors(k, at, i) <==> i == at + k + 2 * (k * at)
  {
    assert (2 * k + 1) * (2 * at + 1) == 4 * (k * at) + 2 * k + 2 * at + 1;
  }

  lemma StrikesAbove(n: nat, k: nat, i: nat)
    requires k >= 1 && Strikes(n, k, i)
    ensures k < i
  {
    var at :| k <= at <= n / 4 && OddFactors(k, at, i);
    StruckIndex(k, at, i);
    MulMonotone(0, k, 0, at);
  }

  predicate Struck(n: nat, kept: set<nat>, i: nat) {
    exists k | k in kept :: Strikes(n, k, i)
  }

  /** Indices from 1 up to `hi` that none of the claims crosses out. */
  function Unstruck(n: nat, kept: set<nat>, hi: nat): nat {
    if hi <= 1 then 0 else Unstruck(n, kept, hi - 1) + if Struck(n, kept, hi - 1) then 0 else 1
  }

  /** Indices up to `hi` that claim p crosses out. */
  function StruckBy(n: nat, p: nat, hi: nat): nat {
    if hi <= 1 then 0 else StruckBy(n, p, hi - 1) + if Strikes(n, p, hi - 1) then 1 else 0
  }

  lemma {:induction false} OneMoreStrikes(n: nat, kept: set<nat>, p: nat, hi: nat)
    ensures Unstruck(n, kept + {p}, hi) + StruckBy(n, p, hi) >= Unstruck(n, kept, hi)
  {
    if hi > 1 {
      OneMoreStrikes(n, kept, p, hi - 1);
      if Struck(n, kept + {p}, hi - 1) && !Struck(n, kept, hi - 1) {
        var k :| k in kept + {p} && Strikes(n, k, hi - 1);
        assert k == p;
      }
    }
  }

  lemma HitsBelowStep(n: nat, p: nat, m: nat)
    requires m >= 1
    ensures HitsBelow(n, p, m) >= HitsBelow(n, p, m - 1) + if Strikes(n, p, m) then 1 else 0
  {
    var last := LastBelow(n, p, m - 1);
    if last >= 0 {
      LastBelowIs(n, p, m - 1, last);
      LastBelowIs(n, p, m, last);
    }
    if Strikes(n, p, m) {
      var at: nat :| p <= at <= n / 4 && OddFactors(p, at, m);
      StruckIndex(p, at, m);
      LastBelowIs(n, p, m, at);
      LastBelowIs(n, p, m - 1, at);
    }
  }

  lemma {:induction false} StruckByIsFew(n: nat, p: nat, hi: nat)
    requires hi >= 1
    ensures StruckBy(n, p, hi) <= HitsBelow(n, p, hi - 1)
  {
    if hi > 1 {
      StruckByIsFew(n, p, hi - 1);
      HitsBelowStep(n, p, hi - 1);
    }
  }

  lemma {:induction false} HitsBelowGrows(n: nat, p: nat, m: nat, m': nat)
    requires m <= m'
    ensures HitsBelow(n, p, m) <= HitsBelow(n, p, m')
    decreases m'
  {
    if m < m' {
      HitsBelowGrows(n, p, m, m' - 1);
      HitsBelowStep(n, p, m');
    }
  }

  // The figure

  /** Cross-outs of the claims, plus the numbers listed after them, 2 among these, less all numbers. */
  function Figure(n: nat, kept: set<nat>): int {
    OddMultiples(n, kept, n / 4 + 1) + 1 + Unstruck(n, kept, (n + 1) / 2) - n
  }

  /** One more claim never lowers the figure: it adds its cross-outs and unlists at most as many. */
  lemma OneMoreClaim(n: nat, kept: set<nat>, p: nat)
    requires p !in kept && p <= n / 4 && n >= 2
    ensures Figure(n, kept + {p}) >= Figure(n, kept)
  {
    OneMoreMultiple(n, kept, p, n / 4 + 1);
    OneMoreStrikes(n, kept, p, (n + 1) / 2);
    StruckByIsFew(n, p, (n + 1) / 2);
    HitsBelowGrows(n, p, (n + 1) / 2 - 1, n);
  }

  lemma {:induction false} FigureGrows(n: nat, few: set<nat>, many: set<nat>)
    requires n >= 2 && few <= many && forall p | p in many :: p <= n / 4
    ensures Figure(n, few) <= Figure(n, many)
    decreases |many - few|
  {
    var more := many - few;
    if more == {} {
      assert few == many;
    } else {
      var p :| p in more;
      assert many - (few + {p}) == more - {p};
      OneMoreClaim(n, few, p);
      FigureGrows(n, few + {p}, many);
    }
  }

  /** What showinfo prints for the number m. */
  lemma PrintedAt(c: Config, number: seq<int>, m: nat)
    requires c.Valid() && c.kind.Sundaram? && |number| == c.Cells() && 1 <= m <= c.bound
    ensures |Printable(c, number)| == c.bound
    ensures Printable(c, number)[m - 1] != 0 <==> m == 2 || (m >= 3 && m % 2 == 1 && number[m / 2] != 0)
  {
    assert Printable(c, number)[m - 1] == Rewritten(number)[m];
  }

  /** The numbers up to m that showinfo lists. */
  lemma {:induction false} ListedCount(c: Config, number: seq<int>, kept: set<nat>, m: nat)
    requires c.Valid() && c.kind.Sundaram? && |number| == c.Cells() && m <= |Printable(c, number)| == c.bound
    requires forall i | 1 <= i < c.Cells() :: number[i] == 0 <==> Struck(c.bound, kept, i)
    ensures |NonZero(Printable(c, number)[..m])| == (if m >= 2 then 1 else 0) + Unstruck(c.bound, kept, (m + 1) / 2)
  {
    if m > 0 {
      ListedCount(c, number, kept, m - 1);
      PrintedAt(c, number, m);
      NonZeroSnoc(Printable(c, number), m - 1);
      UnstruckStep(c.bound, kept, m);
    }
  }

  lemma UnstruckStep(n: nat, kept: set<nat>, m: nat)
    requires m >= 1
    ensures Unstruck(n, kept, (m + 1) / 2) ==
            Unstruck(n, kept, m / 2) + if m >= 3 && m % 2 == 1 && !Struck(n, kept, m / 2) then 1 else 0
  {
    if m % 2 == 0 {
      assert (m + 1) / 2 == m / 2;
    } else {
      assert (m + 1) / 2 == m / 2 + 1;
    }
  }

  lemma FinalListing(c: Config, s: State)
    requires Inv(c, s) && AllFinished(s) && c.kind.Sundaram?
    ensures |NonZero(Printable(c, s.number))| == 1 + Unstruck(c.bound, s.kept, (c.bound + 1) / 2)
  {
    FinalStruck(c, s);
    ListingLength(c, s.number, s.kept);
  }

  lemma ListingLength(c: Config, number: seq<int>, kept: set<nat>)
    requires c.Valid() && c.kind.Sundaram? && |number| == c.Cells()
    requires forall i | 1 <= i < c.Cells() :: number[i] == 0 <==> Struck(c.bound, kept, i)
    ensures |NonZero(Printable(c, number))| == 1 + Unstruck(c.bound, kept, (c.bound + 1) / 2)
  {
    PrintedAt(c, number, c.bound);
    ListedCount(c, number, kept, c.bound);
    var printed := Printable(c, number);
    assert printed[..c.bound] == printed;
  }

  lemma FinalStruck(c: Config, s: State)
    requires Inv(c, s) && AllFinished(s) && c.kind.Sundaram?
    ensures forall i | 1 <= i < c.Cells() :: s.number[i] == 0 <==> Struck(c.bound, s.kept, i)
    ensures s.cur >= c.Cap() && forall p | p in s.kept :: p < c.Cap()
  {
    FinalCells(c, s);
    forall i | 1 <= i < c.Cells()
      ensures s.number[i] == 0 <==> Struck(c.bound, s.kept, i)
    {
      CellIsStruck(c, s.kept, i);
    }
  }

  lemma FinalFigure(c: Config, s: State)
    requires Inv(c, s) && AllFinished(s) && c.kind.Sundaram?
    ensures OddMultiples(c.bound, s.kept, s.cur) + |NonZero(Printable(c, s.number))| - c.bound ==
            Figure(c.bound, s.kept)
  {
    FinalListing(c, s);
    EndsPastCap(c, s);
    NoneAbove(c.bound, s.kept, c.Cap(), s.cur);
  }

  lemma CellIsStruck(c: Config, kept: set<nat>, i: nat)
    requires c.Valid() && c.kind.Sundaram?
    ensures (exists p :: p in kept && Crosses(c, p, i)) <==> Struck(c.bound, kept, i)
  {
    if p :| p in kept && Crosses(c, p, i) {
      StrikesAre(c, p, i);
    }
    if p :| p in kept && Strikes(c.bound, p, i) {
      StrikesAre(c, p, i);
    }
  }

  /** Run by run, for the code as written too: what is printed is the figure of the claims carried
      through. */
  lemma FigureOfRun(c: Config, schedule: seq<Choice>)
    requires c.Valid() && c.kind.Sundaram? && CompleteRun(c, schedule)
    ensures var s := Exec(c, Init(c), schedule);
      && Unnecessary(c, s) == OddMultiples(c.bound, s.kept, s.cur) + |NonZero(Printable(c, s.number))| - c.bound
      && Unnecessary(c, s) == Figure(c.bound, s.kept)
  {
    AccountingTheorem(c, schedule);
    Reachable(c, schedule);
    var s := Exec(c, Init(c), schedule);
    KeptOddMultiples(c, s.kept, s.cur);
    FinalFigure(c, s);
  }

  // Which claims are carried through when those of a given set are overtaken

  /** No claim below i that itself stands, and is not one of the lost ones, crosses i out. */
  predicate Stands(n: nat, lost: set<nat>, i: nat) {
    i >= 1 && forall k | 1 <= k < i && k !in lost && Strikes(n, k, i) :: !Stands(n, lost, k)
  }

  predicate Carries(n: nat, lost: set<nat>, i: nat) {
    i !in lost && Stands(n, lost, i) && exists j | i < j <= n / 4 :: Stands(n, lost, j)
  }

  /** The claims that are carried through when the claims in `lost` are overtaken. */
  function Carried(n: nat, lost: set<nat>): (carried: set<nat>)
    ensures forall i: nat :: i in carried <==> i <= n / 4 && Carries(n, lost, i)
  {
    set i | 0 <= i <= n / 4 && Carries(n, lost, i)
  }

  /** What strikes a striker strikes what that one strikes. */
  lemma StrikesTransitive(n: nat, k: nat, m: nat, i: nat)
    requires k >= 1 && Strikes(n, k, m) && Strikes(n, m, i) && i <= n / 4
    ensures Strikes(n, k, i)
  {
    var a: nat :| k <= a <= n / 4 && OddFactors(k, a, m);
    var b: nat :| m <= b <= n / 4 && OddFactors(m, b, i);
    var at := 2 * (a * b) + a + b;
    Associate(k, a, b);
    MulMonotone(0, a, 0, b);
    assert OddFactors(k, at, i);
    StruckIndex(k, at, i);
    MulMonotone(0, k, 0, at);
  }

  lemma Associate(k: nat, a: nat, b: nat)
    ensures (2 * k + 1) * (2 * (2 * (a * b) + a + b) + 1) == (2 * k + 1) * (2 * a + 1) * (2 * b + 1)
  {
    assert (2 * a + 1) * (2 * b + 1) == 2 * (2 * (a * b) + a + b) + 1;
    Regroup(2 * k + 1, 2 * a + 1, 2 * b + 1);
  }

  /** When nothing is lost, exactly the primes stand. */
  lemma {:induction false} StandsIsPrime(n: nat, i: nat)
    requires 1 <= i <= n / 4
    ensures Stands(n, {}, i) <==> Prime(2 * i + 1)
    decreases i
  {
    if Prime(2 * i + 1) {
      forall k | 1 <= k < i
        ensures !Strikes(n, k, i)
      {
        if at :| k <= at <= n / 4 && OddFactors(k, at, i) {
          MultipleIsDivided(2 * k + 1, 2 * at + 1);
        }
      }
    } else {
      var k := PrimeStriker(n, i);
      StandsIsPrime(n, k);
    }
  }

  lemma PrimeStriker(n: nat, i: nat) returns (k: nat)
    requires 1 <= i <= n / 4 && !Prime(2 * i + 1)
    ensures 1 <= k < i && Prime(2 * k + 1) && Strikes(n, k, i)
  {
    var p, m := CompositeSplit(2 * i + 1);
    var at;
    k, at := SundaramSplit(p, m, i, 2 * i + 1);
    StruckIndex(k, at, i);
    StrikesAbove(n, k, i);
  }

  /** When nothing is lost, the claims carried through are those of the primes that a later prime follows. */
  lemma CarriesPrimes(n: nat, i: nat)
    ensures Carries(n, {}, i) <==> i >= 1 && Prime(2 * i + 1) && exists j | i < j <= n / 4 :: Prime(2 * j + 1)
  {
    if 1 <= i < n / 4 {
      StandsIsPrime(n, i);
      if j: nat :| i < j <= n / 4 && Stands(n, {}, j) {
        StandsIsPrime(n, j);
      }
      if j: nat :| i < j <= n / 4 && Prime(2 * j + 1) {
        StandsIsPrime(n, j);
      }
    }
  }
}
