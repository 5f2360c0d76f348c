/** What a finished run leaves in the array, whatever the interleaving. */
module SieveExactness {
  import opened Primes
  import opened PrimeGap
  import opened SieveMachine
  import opened SieveInvariant

  /** The rewriting pass of the Sundaram sieves' showinfo: index m becomes the odd number 2 m + 1,
      and 2 is added by hand. */
  function Rewritten(number: seq<int>): seq<int>
    requires |number| >= 3
  {
    seq(|number|, k requires 0 <= k < |number| =>
      if k == 0 then number[0]
      else if k == 2 then 2
      else if k >= 3 && k % 2 == 1 && number[k / 2] != 0 then k
      else 0)
  }

  /** What showinfo finds in the array for the number k: k itself if it is taken for a prime, else 0. */
  function Listed(c: Config, number: seq<int>, k: nat): int
    requires c.Valid() && |number| == c.Cells() && 1 <= k <= c.bound
  {
    if c.kind.Sundaram? then Rewritten(number)[k]
    else if k == 1 then 0
    else number[k - 2]
  }

  ghost predicate Exact(c: Config, number: seq<int>)
    requires c.Valid() && |number| == c.Cells()
  {
    forall k | 1 <= k <= c.bound :: Listed(c, number, k) == if Prime(k) then k else 0
  }

  /** No run ever zeroes the cell of a prime. */
  lemma PrimesSurvive(c: Config, s: State, i: nat)
    requires Inv(c, s) && c.Start() <= i < c.Cells() && Prime(Represents(c, i))
    ensures s.number[i] == c.InitialValue(i) != 0
  {
    if s.number[i] == 0 {
      var p :| p in s.kept && Crosses(c, p, i);
      PrimesAreNotCrossed(c, p, i);
    }
  }

  /** Once a cell is zero it stays zero. */
  lemma {:induction false} ZeroesStay(c: Config, s: State, schedule: seq<Choice>, i: nat)
    requires Shape(c, s) && Legal(c, s, schedule) && i < c.Cells() && s.number[i] == 0
    ensures Exec(c, s, schedule).number[i] == 0
    decreases schedule
  {
    if schedule != [] {
      ZeroesStay(c, Next(c, s, schedule[0].thread, schedule[0].now), schedule[1..], i);
    }
  }

  /** After the run: the cursor is at the cap, every claimable position was kept, dropped or crossed
      out, and a cell is zero exactly when a kept claim crosses it. Holds for the literal check too. */
  lemma FinalCells(c: Config, s: State)
    requires Inv(c, s) && AllFinished(s)
    ensures s.cur >= c.Cap()
    ensures forall pos: nat | c.Start() <= pos < c.Cap() :: pos in s.kept || pos in s.dropped || s.number[pos] == 0
    ensures forall i | c.Start() <= i < c.Cells() :: s.number[i] == 0 <==> exists p :: p in s.kept && Crosses(c, p, i)
  {
    assert LeftCompute(s.pc[0]);
    forall i, p | c.Start() <= i < c.Cells() && p in s.kept && Crosses(c, p, i)
      ensures s.number[i] == 0
    {
      var at: nat :| OnTrack(c, p, at) && c.Guard(at) && c.Cell(p, at) == i;
      assert Hits(c, p, at);
    }
  }

  /** At the end the cursor is past all claims that were carried through. */
  lemma EndsPastCap(c: Config, s: State)
    requires Inv(c, s) && AllFinished(s)
    ensures s.cur >= c.Cap() && forall p | p in s.kept :: p < c.Cap()
  {
    assert LeftCompute(s.pc[0]);
  }

  /** Every prime that can be claimed was claimed: its position is kept or dropped. */
  lemma PrimesAreClaimed(c: Config, s: State, pos: nat)
    requires Inv(c, s) && AllFinished(s) && c.Start() <= pos < c.Cap() && Prime(Represents(c, pos))
    ensures pos in s.kept || pos in s.dropped
  {
    FinalCells(c, s);
    AtEndIsCap(c, pos);
    PrimesSurvive(c, s, pos);
  }

  /** With a faithful bound check a composite never survives. */
  lemma CompositesVanish(c: Config, s: State, i: nat)
    requires Inv(c, s) && AllFinished(s) && Faithful(c)
    requires c.Start() <= i < c.Cells() && Represents(c, i) <= c.bound && !Prime(Represents(c, i))
    ensures s.number[i] == 0
  {
    var pos, at := CompositesAreCrossed(c, i);
    FinalCells(c, s);
    PrimesAreClaimed(c, s, pos);
    if pos in s.kept {
      assert Crosses(c, pos, i);
    } else if c.kind.Sundaram? {
      var p := PrimeBelowHalf(pos, c.bound);
      OddPrime(p);
      assert s.number[p / 2] == 0;
      PrimesSurvive(c, s, p / 2);
    } else {
      assert s.number[i] == 0;
    }
  }

  lemma OddPrime(p: nat)
    requires Prime(p) && p > 2
    ensures p == 2 * (p / 2) + 1
  {
    assert !Divides(2, p);
  }

  /** Array to listing: the right cells zero means the right numbers listed. */
  lemma CellsMakeExact(c: Config, s: State)
    requires Inv(c, s)
    requires forall i: nat | c.Start() <= i < c.Cells() && Represents(c, i) <= c.bound ::
      s.number[i] == 0 <==> !Prime(Represents(c, i))
    ensures Exact(c, s.number)
  {
    forall k | 1 <= k <= c.bound
      ensures Listed(c, s.number, k) == if Prime(k) then k else 0
    {
      if k > 2 && c.kind.Sundaram? {
        if k % 2 == 1 {
          assert Represents(c, k / 2) == k;
        } else {
          assert Divides(2, k);
        }
      } else if k >= 2 && c.kind.Eratosthenes? {
        assert Represents(c, k - 2) == k;
      }
    }
  }

  /** Every complete run with a faithful check lists exactly the primes up to the bound. */
  lemma FaithfulRunsAreExact(c: Config, s: State)
    requires Inv(c, s) && AllFinished(s) && Faithful(c)
    ensures Exact(c, s.number)
  {
    forall i: nat | c.Start() <= i < c.Cells() && Represents(c, i) <= c.bound
      ensures s.number[i] == 0 <==> !Prime(Represents(c, i))
    {
      if Prime(Represents(c, i)) {
        PrimesSurvive(c, s, i);
      } else {
        CompositesVanish(c, s, i);
      }
    }
    CellsMakeExact(c, s);
  }
}
