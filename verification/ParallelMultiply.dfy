/** The parallel loop of studio 15 on a shared array, one method per load, store and turn of a column's
    worker, and the whole program: multiply in parallel, multiply serially, compare. */
module ParallelMultiply {
  import opened RowMajor
  import opened MatrixMultiply

  class Product<T> {
    const p: Problem<T>
    const c: array<T>
    const workers: array<Worker<T>>

    ghost predicate Valid()
      reads c, workers
    {
      c as object != workers as object && Shape(p, Snapshot())
    }

    ghost function Snapshot(): State<T>
      reads c, workers
    {
      State(c[..], workers[..])
    }

    /** A zeroed array and one worker per column. */
    constructor (p: Problem<T>)
      requires p.Valid()
      ensures this.p == p && fresh(c) && fresh(workers)
      ensures Valid() && Snapshot() == Init(p)
    {
      this.p := p;
      c := new T[Cells(p.m)](_ => p.zero);
      workers := new Worker<T>[p.m](_ => Loading(0, 0));
    }

    /** C[row*m + col] + A[row*m + index] * B[index*m + col]. */
    method Sum(row: nat, col: nat, index: nat) returns (sum: T)
      requires Valid() && row < p.m && col < p.m && index < p.m
      ensures At(p.m, row, col) < c.Length && At(p.m, row, index) < |p.a| && At(p.m, index, col) < |p.b|
      ensures sum == p.plus(c[At(p.m, row, col)], p.times(p.a[At(p.m, row, index)], p.b[At(p.m, index, col)]))
    {
      Positions(p, row, col, index);
      sum := p.plus(c[row * p.m + col], p.times(p.a[row * p.m + index], p.b[index * p.m + col]));
    }

    /** The sum is computed, or the worker turns to its next row. */
    method Load(col: nat)
      requires Valid() && Enabled(p, Snapshot(), col) && workers[col].Loading?
      modifies workers
      ensures Valid() && Snapshot() == Next(p, old(Snapshot()), col)
    {
      ghost var s := Snapshot();
      assert InRange(p.m, s.workers[col]);
      var row, index := workers[col].row, workers[col].index;
      if index == p.m {
        workers[col] := Loading(row + 1, 0);
        assert workers[..] == s.workers[col := Loading(row + 1, 0)];
      } else {
        var sum := Sum(row, col, index);
        workers[col] := Storing(row, index, sum);
        assert workers[..] == s.workers[col := Storing(row, index, sum)];
      }
    }

    /** The sum goes back into C[row*m + col]. */
    method Store(col: nat)
      requires Valid() && Enabled(p, Snapshot(), col) && workers[col].Storing?
      modifies c, workers
      ensures Valid() && Snapshot() == Next(p, old(Snapshot()), col)
    {
      ghost var s := Snapshot();
      assert InRange(p.m, s.workers[col]);
      var row, index, sum := workers[col].row, workers[col].index, workers[col].sum;
      Positions(p, row, col, index);
      c[row * p.m + col] := sum;
      workers[col] := Loading(row, index + 1);
      assert workers[..] == s.workers[col := Loading(row, index + 1)];
      assert c[..] == s.c[At(p.m, row, col) := sum];
    }

    method Run(schedule: seq<nat>)
      requires Valid() && Legal(p, Snapshot(), schedule)
      modifies c, workers
      ensures Valid() && Snapshot() == Exec(p, old(Snapshot()), schedule)
    {
      for i := 0 to |schedule|
        invariant Valid() && Legal(p, Snapshot(), schedule[i..])
        invariant Exec(p, Snapshot(), schedule[i..]) == Exec(p, old(Snapshot()), schedule)
      {
        assert schedule[i..][1..] == schedule[i + 1..];
        if workers[schedule[i]].Loading? {
          Load(schedule[i]);
        } else {
          Store(schedule[i]);
        }
      }
    }
  }

  lemma Positions<T>(p: Problem<T>, row: nat, col: nat, index: nat)
    requires p.Valid() && row < p.m && col < p.m && index < p.m
    ensures row * p.m + col == At(p.m, row, col) < Cells(p.m)
    ensures row * p.m + index == At(p.m, row, index) < Cells(p.m)
    ensures index * p.m + col == At(p.m, index, col) < Cells(p.m)
  {
    AtIsRowMajor(p.m, row, col);
    AtIsRowMajor(p.m, row, index);
    AtIsRowMajor(p.m, index, col);
    AtOrdered(p.m, row, col, p.m);
    AtOrdered(p.m, row, index, p.m);
    AtOrdered(p.m, index, col, p.m);
  }

  /** The program with VERIFY_PARALLEL: both products are computed and every comparison succeeds. */
  method Multiply<T(==)>(p: Problem<T>, schedule: seq<nat>) returns (c: array<T>, same: bool)
    requires p.Valid() && Legal(p, Init(p), schedule) && AllDone(p, Exec(p, Init(p), schedule))
    ensures same && IsProduct(p, c[..])
  {
    var product := new Product(p);
    product.Run(schedule);
    ParallelTheorem(p, schedule);
    c := product.c;
    var d := new T[Cells(p.m)](_ => p.zero);
    same := VerifyParallel(p, schedule, c, d);
  }
}
