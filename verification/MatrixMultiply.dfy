/** Studio 15: dense matrix multiplication, once with the columns shared out among OpenMP threads and
    once serially. Each `+=` on a cell is a load and a store. Addition and multiplication are arbitrary
    functions, so nothing depends on which floating-point sums happen to be exact. */
module MatrixMultiply {

  import opened RowMajor

  // The product

  /** The number of cells of an m by m matrix. */
  function Cells(m: nat): nat {
    At(m, m, 0)
  }

  /** Matrices of size m by m in row-major order, and the arithmetic of their elements. */
  datatype Problem<!T> = Problem(m: nat, a: seq<T>, b: seq<T>, zero: T, plus: (T, T) -> T, times: (T, T) -> T) {
    ghost predicate Valid() {
      |a| == |b| == Cells(m)
    }
  }

  /** The left-to-right sum of the first n products of a row and a column. */
  ghost function Dot<T>(p: Problem<T>, row: nat, col: nat, n: nat): T
    requires p.Valid() && row < p.m && col < p.m && n <= p.m
  {
    if n == 0 then p.zero
    else
      AtOrdered(p.m, row, n - 1, p.m);
      AtOrdered(p.m, n - 1, col, p.m);
      p.plus(Dot(p, row, col, n - 1), p.times(p.a[At(p.m, row, n - 1)], p.b[At(p.m, n - 1, col)]))
  }

  /** Cell (row, col) of c holds the sum of the first n products. */
  ghost predicate CellIs<T>(p: Problem<T>, c: seq<T>, row: nat, col: nat, n: nat)
    requires p.Valid() && |c| == Cells(p.m) && row < p.m && col < p.m && n <= p.m
  {
    AtOrdered(p.m, row, col, p.m);
    c[At(p.m, row, col)] == Dot(p, row, col, n)
  }

  /** c is the product of the two matrices. */
  ghost predicate IsProduct<T>(p: Problem<T>, c: seq<T>)
    requires p.Valid()
  {
    |c| == Cells(p.m) && forall row, col | 0 <= row < p.m && 0 <= col < p.m :: CellIs(p, c, row, col, p.m)
  }

  lemma ProductIsUnique<T>(p: Problem<T>, c: seq<T>, d: seq<T>)
    requires p.Valid() && IsProduct(p, c) && IsProduct(p, d)
    ensures c == d
  {
    forall i | 0 <= i < |c|
      ensures c[i] == d[i]
    {
      var row, col := Locate(p.m, p.m, i);
      assert CellIs(p, c, row, col, p.m) && CellIs(p, d, row, col, p.m);
    }
  }

  /** Storing into one cell leaves what is known of the others. */
  lemma CellUpdate<T>(p: Problem<T>, c: seq<T>, row: nat, col: nat, v: T, row': nat, col': nat, n: nat)
    requires p.Valid() && |c| == Cells(p.m) && row < p.m && col < p.m && row' < p.m && col' < p.m && n <= p.m
    requires (row', col') != (row, col) && CellIs(p, c, row', col', n)
    requires At(p.m, row, col) < |c|
    ensures CellIs(p, c[At(p.m, row, col) := v], row', col', n)
  {
    AtOrdered(p.m, row', col', p.m);
    if At(p.m, row, col) == At(p.m, row', col') {
      AtInjective(p.m, row, col, row', col');
    }
  }

  lemma ZeroCells<T>(p: Problem<T>, c: seq<T>, row: nat, col: nat)
    requires p.Valid() && |c| == Cells(p.m) && row < p.m && col < p.m
    requires forall i | 0 <= i < |c| :: c[i] == p.zero
    ensures CellIs(p, c, row, col, 0)
  {
    AtOrdered(p.m, row, col, p.m);
  }

  // The parallel loop

  /** One column's worker: about to load cell (row, col), or about to store a sum into it. */
  datatype Worker<T> = Loading(row: nat, index: nat) | Storing(row: nat, index: nat, sum: T)

  datatype State<T> = State(c: seq<T>, workers: seq<Worker<T>>)

  function Init<T>(p: Problem<T>): State<T> {
    State(seq(Cells(p.m), _ => p.zero), seq(p.m, _ => Loading(0, 0)))
  }

  ghost predicate InRange<T>(m: nat, w: Worker<T>) {
    if w.Storing? then w.row < m && w.index < m
    else (w.row < m && w.index <= m) || (w.row == m && w.index == 0)
  }

  ghost predicate Shape<T>(p: Problem<T>, s: State<T>) {
    && p.Valid() && |s.c| == Cells(p.m) && |s.workers| == p.m
    && forall col | 0 <= col < p.m :: InRange(p.m, s.workers[col])
  }

  ghost predicate Enabled<T>(p: Problem<T>, s: State<T>, col: nat)
    requires Shape(p, s)
  {
    col < p.m && (s.workers[col].Loading? ==> s.workers[col].row < p.m)
  }

  ghost function Next<T>(p: Problem<T>, s: State<T>, col: nat): (s': State<T>)
    requires Shape(p, s) && Enabled(p, s, col)
    ensures Shape(p, s')
  {
    match s.workers[col]
    case Loading(row, index) =>
      if index == p.m then s.(workers := s.workers[col := Loading(row + 1, 0)])
      else
        AtOrdered(p.m, row, col, p.m);
        AtOrdered(p.m, row, index, p.m);
        AtOrdered(p.m, index, col, p.m);
        var product := p.times(p.a[At(p.m, row, index)], p.b[At(p.m, index, col)]);
        s.(workers := s.workers[col := Storing(row, index, p.plus(s.c[At(p.m, row, col)], product))])
    case Storing(row, index, sum) =>
      AtOrdered(p.m, row, col, p.m);
      State(s.c[At(p.m, row, col) := sum], s.workers[col := Loading(row, index + 1)])
  }

  ghost predicate Legal<T>(p: Problem<T>, s: State<T>, schedule: seq<nat>)
    requires Shape(p, s)
    decreases schedule
  {
    schedule != [] ==> Enabled(p, s, schedule[0]) && Legal(p, Next(p, s, schedule[0]), schedule[1..])
  }

  ghost function Exec<T>(p: Problem<T>, s: State<T>, schedule: seq<nat>): (s': State<T>)
    requires Shape(p, s) && Legal(p, s, schedule)
    ensures Shape(p, s')
    decreases schedule
  {
    if schedule == [] then s else Exec(p, Next(p, s, schedule[0]), schedule[1..])
  }

  ghost predicate AllDone<T>(p: Problem<T>, s: State<T>) {
    forall col | 0 <= col < |s.workers| :: s.workers[col].Loading? && s.workers[col].row == p.m
  }

  /** How many products a worker has summed into its cell of the given row. */
  function Progress<T>(m: nat, w: Worker<T>, row: nat): nat {
    if row < w.row then m else if row == w.row then w.index else 0
  }

  /** Every cell holds the sum its column's worker has got to; a pending store adds the next product. */
  ghost predicate Partial<T>(p: Problem<T>, s: State<T>)
    requires Shape(p, s)
  {
    && (forall row, col | 0 <= row < p.m && 0 <= col < p.m :: CellOk(p, s, row, col))
    && (forall col | 0 <= col < p.m && s.workers[col].Storing? ::
          s.workers[col].sum == Dot(p, s.workers[col].row, col, s.workers[col].index + 1))
  }

  ghost predicate CellOk<T>(p: Problem<T>, s: State<T>, row: nat, col: nat)
    requires Shape(p, s) && row < p.m && col < p.m
  {
    assert InRange(p.m, s.workers[col]);
    CellIs(p, s.c, row, col, Progress(p.m, s.workers[col], row))
  }

  lemma StepPartial<T>(p: Problem<T>, s: State<T>, col: nat)
    requires Shape(p, s) && Partial(p, s) && Enabled(p, s, col)
    ensures Partial(p, Next(p, s, col))
  {
    var s' := Next(p, s, col);
    var w := s.workers[col];
    assert InRange(p.m, w);
    forall row, col' | 0 <= row < p.m && 0 <= col' < p.m
      ensures CellOk(p, s', row, col')
    {
      assert CellOk(p, s, row, col');
      if w.Storing? {
        AtOrdered(p.m, w.row, col, p.m);
        if (row, col') != (w.row, col) {
          CellUpdate(p, s.c, w.row, col, w.sum, row, col', Progress(p.m, s.workers[col'], row));
        }
      }
    }
    if w.Loading? && w.index < p.m {
      assert CellOk(p, s, w.row, col);
    }
  }

  lemma {:induction false} RunPartial<T>(p: Problem<T>, s: State<T>, schedule: seq<nat>)
    requires Shape(p, s) && Partial(p, s) && Legal(p, s, schedule)
    ensures Partial(p, Exec(p, s, schedule))
    decreases schedule
  {
    if schedule != [] {
      StepPartial(p, s, schedule[0]);
      RunPartial(p, Next(p, s, schedule[0]), schedule[1..]);
    }
  }

  /** However the column workers interleave, the finished array is the product the serial loop computes. */
  lemma ParallelTheorem<T>(p: Problem<T>, schedule: seq<nat>)
    requires p.Valid() && Legal(p, Init(p), schedule) && AllDone(p, Exec(p, Init(p), schedule))
    ensures IsProduct(p, Exec(p, Init(p), schedule).c)
  {
    forall row, col | 0 <= row < p.m && 0 <= col < p.m
      ensures CellOk(p, Init(p), row, col)
    {
      ZeroCells(p, Init(p).c, row, col);
    }
    RunPartial(p, Init(p), schedule);
    var s := Exec(p, Init(p), schedule);
    forall row, col | 0 <= row < p.m && 0 <= col < p.m
      ensures CellIs(p, s.c, row, col, p.m)
    {
      assert CellOk(p, s, row, col);
    }
  }

  // Every run gets there

  /** The steps a worker has left: a load and a store for each product, and a turn for each row. */
  function StepsLeft<T>(m: nat, w: Worker<T>): int {
    (m - w.row) * (2 * m + 1) - 2 * w.index - if w.Storing? then 1 else 0
  }

  function TotalLeft<T>(m: nat, workers: seq<Worker<T>>): int {
    if workers == [] then 0 else StepsLeft(m, workers[0]) + TotalLeft(m, workers[1..])
  }

  lemma {:induction false} TotalLeftUpdate<T>(m: nat, workers: seq<Worker<T>>, col: nat, w: Worker<T>)
    requires col < |workers|
    ensures TotalLeft(m, workers[col := w]) == TotalLeft(m, workers) - StepsLeft(m, workers[col]) + StepsLeft(m, w)
  {
    if col == 0 {
      assert workers[0 := w][1..] == workers[1..];
    } else {
      TotalLeftUpdate(m, workers[1..], col - 1, w);
      assert workers[col := w][1..] == workers[1..][col - 1 := w];
    }
  }

  lemma {:induction false} TotalLeftConstant<T>(m: nat, workers: seq<Worker<T>>, left: int)
    requires forall col | 0 <= col < |workers| :: StepsLeft(m, workers[col]) == left
    ensures TotalLeft(m, workers) == |workers| * left
  {
    if workers != [] {
      TotalLeftConstant(m, workers[1..], left);
      assert |workers| * left == left + (|workers| - 1) * left;
    }
  }

  lemma NextRow(m: int, row: int)
    ensures (m - (row + 1)) * (2 * m + 1) == (m - row) * (2 * m + 1) - (2 * m + 1)
  {
  }

  /** Each step is one step less. */
  lemma StepIsOne<T>(p: Problem<T>, s: State<T>, col: nat)
    requires Shape(p, s) && Enabled(p, s, col)
    ensures TotalLeft(p.m, Next(p, s, col).workers) == TotalLeft(p.m, s.workers) - 1
  {
    var w, w' := s.workers[col], Next(p, s, col).workers[col];
    assert Next(p, s, col).workers == s.workers[col := w'];
    TotalLeftUpdate(p.m, s.workers, col, w');
    NextRow(p.m, w.row);
  }

  lemma WorkerLeft<T>(m: nat, w: Worker<T>)
    requires InRange(m, w)
    ensures StepsLeft(m, w) >= 0
    ensures StepsLeft(m, w) == 0 <==> w.Loading? && w.row == m
  {
    if w.row < m {
      assert (m - w.row - 1) * (2 * m + 1) >= 0;
      NextRow(m, w.row);
    }
  }

  lemma {:induction false} TotalLeftBound<T>(m: nat, workers: seq<Worker<T>>)
    requires forall col | 0 <= col < |workers| :: InRange(m, workers[col])
    ensures TotalLeft(m, workers) >= 0
    ensures TotalLeft(m, workers) == 0 <==> forall col | 0 <= col < |workers| :: StepsLeft(m, workers[col]) == 0
  {
    if workers != [] {
      WorkerLeft(m, workers[0]);
      TotalLeftBound(m, workers[1..]);
    }
  }

  /** The run's length is the steps it took off. */
  lemma {:induction false} RunLength<T>(p: Problem<T>, s: State<T>, schedule: seq<nat>)
    requires Shape(p, s) && Legal(p, s, schedule)
    ensures |schedule| + TotalLeft(p.m, Exec(p, s, schedule).workers) == TotalLeft(p.m, s.workers)
    decreases schedule
  {
    if schedule != [] {
      StepIsOne(p, s, schedule[0]);
      RunLength(p, Next(p, s, schedule[0]), schedule[1..]);
    }
  }

  lemma DoneIsZero<T>(p: Problem<T>, s: State<T>)
    requires Shape(p, s)
    ensures TotalLeft(p.m, s.workers) >= 0
    ensures TotalLeft(p.m, s.workers) == 0 <==> AllDone(p, s)
    ensures AllDone(p, s) <==> forall col :: !Enabled(p, s, col)
  {
    TotalLeftBound(p.m, s.workers);
    forall col | 0 <= col < p.m
      ensures StepsLeft(p.m, s.workers[col]) == 0 <==> s.workers[col].Loading? && s.workers[col].row == p.m
      ensures Enabled(p, s, col) <==> !(s.workers[col].Loading? && s.workers[col].row == p.m)
    {
      assert InRange(p.m, s.workers[col]);
      WorkerLeft(p.m, s.workers[col]);
    }
  }

  lemma {:induction false} CanFinish<T>(p: Problem<T>, s: State<T>) returns (schedule: seq<nat>)
    requires Shape(p, s)
    ensures Legal(p, s, schedule) && AllDone(p, Exec(p, s, schedule))
    decreases TotalLeft(p.m, s.workers)
  {
    DoneIsZero(p, s);
    if AllDone(p, s) {
      schedule := [];
    } else {
      var col: nat :| Enabled(p, s, col);
      StepIsOne(p, s, col);
      var rest := CanFinish(p, Next(p, s, col));
      schedule := [col] + rest;
    }
  }

  lemma RunsToTheEnd<T>(p: Problem<T>, s: State<T>, schedule: seq<nat>, steps: int)
    requires Shape(p, s) && Legal(p, s, schedule) && TotalLeft(p.m, s.workers) == steps
    ensures var s' := Exec(p, s, schedule);
      && |schedule| <= steps
      && (AllDone(p, s') <==> |schedule| == steps)
      && (AllDone(p, s') <==> forall col :: !Enabled(p, s', col))
      && exists rest :: Legal(p, s', rest) && AllDone(p, Exec(p, s', rest))
  {
    RunLength(p, s, schedule);
    DoneIsZero(p, Exec(p, s, schedule));
    var rest := CanFinish(p, Exec(p, s, schedule));
  }

  /** However the workers are scheduled, the parallel loop ends after exactly m m (2 m + 1) steps and not
      before: no run is longer, none gets stuck, and every run can be continued to the end. */
  lemma ParallelTerminates<T>(p: Problem<T>, schedule: seq<nat>)
    requires p.Valid() && Legal(p, Init(p), schedule)
    ensures var s, steps := Exec(p, Init(p), schedule), p.m * (p.m * (2 * p.m + 1));
      && |schedule| <= steps
      && (AllDone(p, s) <==> |schedule| == steps)
      && (AllDone(p, s) <==> forall col :: !Enabled(p, s, col))
      && exists rest :: Legal(p, s, rest) && AllDone(p, Exec(p, s, rest))
  {
    TotalLeftConstant(p.m, Init(p).workers, p.m * (2 * p.m + 1));
    RunsToTheEnd(p, Init(p), schedule, p.m * (p.m * (2 * p.m + 1)));
  }

  // The serial loop and the comparison

  /** The array when the serial loops stand at (col, row, index). */
  ghost predicate SerialAt<T>(p: Problem<T>, d: seq<T>, col: nat, row: nat, index: nat)
    requires p.Valid() && |d| == Cells(p.m) && index <= p.m
  {
    forall r, k | 0 <= r < p.m && 0 <= k < p.m :: SerialCell(p, d, r, k, col, row, index)
  }

  ghost predicate SerialCell<T>(p: Problem<T>, d: seq<T>, r: nat, k: nat, col: nat, row: nat, index: nat)
    requires p.Valid() && |d| == Cells(p.m) && index <= p.m && r < p.m && k < p.m
  {
    CellIs(p, d, r, k, SerialProgress(p.m, r, k, col, row, index))
  }

  function SerialProgress(m: nat, r: nat, k: nat, col: nat, row: nat, index: nat): nat {
    if k < col || (k == col && r < row) then m else if k == col && r == row then index else 0
  }

  /** One turn of the innermost loop. */
  lemma SerialStep<T>(p: Problem<T>, d: seq<T>, col: nat, row: nat, index: nat)
    requires p.Valid() && |d| == Cells(p.m) && col < p.m && row < p.m && index < p.m
    requires SerialAt(p, d, col, row, index)
    requires At(p.m, row, col) < |d| && At(p.m, row, index) < |d| && At(p.m, index, col) < |d|
    ensures var v := p.plus(d[At(p.m, row, col)], p.times(p.a[At(p.m, row, index)], p.b[At(p.m, index, col)]));
            SerialAt(p, d[At(p.m, row, col) := v], col, row, index + 1)
  {
    assert CellIs(p, d, row, col, index) by {
      assert SerialCell(p, d, row, col, col, row, index);
    }
    var v := NextSum(p, d, row, col, index);
    SerialStore(p, d, col, row, index, v, index + 1);
  }

  lemma NextSum<T>(p: Problem<T>, d: seq<T>, row: nat, col: nat, index: nat) returns (v: T)
    requires p.Valid() && |d| == Cells(p.m) && col < p.m && row < p.m && index < p.m
    requires CellIs(p, d, row, col, index)
    requires At(p.m, row, col) < |d| && At(p.m, row, index) < |d| && At(p.m, index, col) < |d|
    ensures v == p.plus(d[At(p.m, row, col)], p.times(p.a[At(p.m, row, index)], p.b[At(p.m, index, col)]))
    ensures v == Dot(p, row, col, index + 1)
  {
    v := Dot(p, row, col, index + 1);
  }

  lemma SerialStore<T>(p: Problem<T>, d: seq<T>, col: nat, row: nat, index: nat, v: T, next: nat)
    requires p.Valid() && |d| == Cells(p.m) && col < p.m && row < p.m && index < p.m && next == index + 1
    requires SerialAt(p, d, col, row, index) && At(p.m, row, col) < |d| && v == Dot(p, row, col, next)
    ensures SerialAt(p, d[At(p.m, row, col) := v], col, row, next)
  {
    var d' := d[At(p.m, row, col) := v];
    forall r, k | 0 <= r < p.m && 0 <= k < p.m
      ensures SerialCell(p, d', r, k, col, row, next)
    {
      assert SerialCell(p, d, r, k, col, row, index);
      if (r, k) != (row, col) {
        CellUpdate(p, d, row, col, v, r, k, SerialProgress(p.m, r, k, col, row, index));
      }
    }
  }

  method MultiplySerial<T>(p: Problem<T>, d: array<T>)
    requires p.Valid() && d.Length == Cells(p.m)
    requires forall i | 0 <= i < d.Length :: d[i] == p.zero
    modifies d
    ensures IsProduct(p, d[..])
  {
    forall r, k | 0 <= r < p.m && 0 <= k < p.m
      ensures SerialCell(p, d[..], r, k, 0, 0, 0)
    {
      ZeroCells(p, d[..], r, k);
    }
    for col := 0 to p.m
      invariant SerialAt(p, d[..], col, 0, 0)
    {
      for row := 0 to p.m
        invariant SerialAt(p, d[..], col, row, 0)
      {
        for index := 0 to p.m
          invariant SerialAt(p, d[..], col, row, index)
        {
          AtOrdered(p.m, row, col, p.m);
          AtOrdered(p.m, row, index, p.m);
          AtOrdered(p.m, index, col, p.m);
          SerialStep(p, d[..], col, row, index);
          ghost var before, cell := d[..], At(p.m, row, col);
          StoreSum(p, d, row, col, index);
          assert d[..] == before[cell := d[cell]];
        }
        SerialTurn(p, d[..], col, row, p.m, col, row + 1, 0);
      }
      SerialTurn(p, d[..], col, p.m, 0, col + 1, 0, 0);
    }
    SerialTurn(p, d[..], p.m, 0, 0, p.m, 0, 0);
  }

  /** D[row*m + col] += A[row*m + index] * B[index*m + col], with the positions computed as written. */
  method StoreSum<T>(p: Problem<T>, d: array<T>, row: nat, col: nat, index: nat)
    requires p.Valid() && d.Length == Cells(p.m)
    requires At(p.m, row, col) < d.Length && At(p.m, row, index) < d.Length && At(p.m, index, col) < d.Length
    modifies d
    ensures d[..] == old(d[..])[At(p.m, row, col) :=
      p.plus(old(d[..])[At(p.m, row, col)], p.times(p.a[At(p.m, row, index)], p.b[At(p.m, index, col)]))]
  {
    AtIsRowMajor(p.m, row, col);
    AtIsRowMajor(p.m, row, index);
    AtIsRowMajor(p.m, index, col);
    d[row * p.m + col] := p.plus(d[row * p.m + col], p.times(p.a[row * p.m + index], p.b[index * p.m + col]));
  }

  /** Two loop positions that stand for the same progress everywhere. */
  lemma SerialTurn<T>(p: Problem<T>, d: seq<T>, col: nat, row: nat, index: nat, col': nat, row': nat, index': nat)
    requires p.Valid() && |d| == Cells(p.m) && index <= p.m && index' <= p.m && SerialAt(p, d, col, row, index)
    requires forall r, k | 0 <= r < p.m && 0 <= k < p.m ::
      SerialProgress(p.m, r, k, col, row, index) == SerialProgress(p.m, r, k, col', row', index')
    ensures SerialAt(p, d, col', row', index')
    ensures col == p.m && row == index == 0 ==> IsProduct(p, d)
  {
    forall r, k | 0 <= r < p.m && 0 <= k < p.m
      ensures SerialCell(p, d, r, k, col', row', index')
    {
      assert SerialCell(p, d, r, k, col, row, index);
    }
    if col == p.m && row == index == 0 {
      forall r, k | 0 <= r < p.m && 0 <= k < p.m
        ensures CellIs(p, d, r, k, p.m)
      {
        assert SerialCell(p, d, r, k, col, row, index);
      }
    }
  }

  /** VERIFY_PARALLEL: compute the product serially and compare; the comparison never fails. */
  method VerifyParallel<T(==)>(p: Problem<T>, ghost schedule: seq<nat>, c: array<T>, d: array<T>) returns (same: bool)
    requires p.Valid() && Legal(p, Init(p), schedule) && AllDone(p, Exec(p, Init(p), schedule))
    requires c != d && c[..] == Exec(p, Init(p), schedule).c && d.Length == c.Length
    requires forall i | 0 <= i < d.Length :: d[i] == p.zero
    modifies d
    ensures same && d[..] == c[..] == old(c[..])
  {
    ParallelTheorem(p, schedule);
    MultiplySerial(p, d);
    ProductIsUnique(p, c[..], d[..]);
    same := true;
    for index := 0 to c.Length
      invariant same && c[..] == d[..] == old(c[..])
    {
      assert c[..][index] == d[..][index];
      if c[index] != d[index] {
        same := false;
      }
    }
  }

  /** The size check lets 65536 through, the one accepted size whose square does not fit 32 bits. */
  lemma SquareFits(m: nat)
    requires m <= 65536
    ensures m * m % 0x1_0000_0000 == m * m <==> m < 65536
  {
    if m < 65536 {
      SquareMonotone(m, 65535);
    }
  }

  lemma SquareMonotone(a: nat, b: nat)
    requires a <= b
    ensures a * a <= b * b
  {
    assert a * (b - a) >= 0;
    assert (b - a) * b >= 0;
  }
}
