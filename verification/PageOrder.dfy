/** Studio 12: how many pages, and which allocation order, hold a given number of structs, and the
    pass that labels every word of them and reads the labels back. */
module PageOrder {
  import opened Primes
  import opened RowMajor

  const WORDS: nat := 8          // ARR_SIZE, unsigned ints per struct
  const WRAP: nat := 0x1_0000_0000

  /** Bitwise and of two unsigned numbers. */
  function And(a: nat, b: nat): nat {
    if a == 0 || b == 0 then 0 else 2 * And(a / 2, b / 2) + if a % 2 == 1 && b % 2 == 1 then 1 else 0
  }

  ghost predicate PowerOfTwo(v: nat) {
    exists k: nat :: v == Pow(2, k)
  }

  lemma {:induction false} AndSelf(a: nat)
    ensures And(a, a) == a
  {
    if a > 0 {
      AndSelf(a / 2);
    }
  }

  /** The bit trick: v & (v - 1) vanishes exactly for powers of two. */
  lemma {:induction false} BitTrick(v: nat)
    requires v >= 1
    ensures And(v, v - 1) == 0 <==> PowerOfTwo(v)
    decreases v
  {
    if v == 1 {
      assert Pow(2, 0) == 1;
    } else if v % 2 == 1 {
      assert (v - 1) / 2 == v / 2;
      AndSelf(v / 2);
      forall k: nat
        ensures v != Pow(2, k)
      {
        assert k > 0 ==> Pow(2, k) == 2 * Pow(2, k - 1);
      }
    } else {
      assert (v - 1) / 2 == v / 2 - 1 && (v - 1) % 2 == 1;
      BitTrick(v / 2);
      if k: nat :| v / 2 == Pow(2, k) {
        assert v == Pow(2, k + 1);
      }
      if k: nat :| v == Pow(2, k) {
        assert k > 0 && v / 2 == Pow(2, k - 1);
      }
    }
  }

  /** The smallest order whose 2^order reaches v. */
  ghost predicate IsOrder(v: nat, order: nat) {
    v <= Pow(2, order) && (order > 0 ==> Pow(2, order - 1) < v)
  }

  lemma {:induction false} PowersGrow(a: nat, b: nat)
    requires a <= b
    ensures 1 <= Pow(2, a) <= Pow(2, b)
    decreases b
  {
    if a < b {
      PowersGrow(a, b - 1);
    } else if b > 0 {
      PowersGrow(a - 1, b - 1);
    }
  }

  lemma OrderIsUnique(v: nat, a: nat, b: nat)
    requires IsOrder(v, a) && IsOrder(v, b)
    ensures a == b
  {
    if a < b {
      PowersGrow(a, b - 1);
    } else if b < a {
      PowersGrow(b, a - 1);
    }
  }

  function Bits(v: nat): nat {
    if v == 0 then 0 else 1 + Bits(v / 2)
  }

  lemma {:induction false} BitsBound(v: nat)
    ensures v < Pow(2, Bits(v)) && (v > 0 ==> Pow(2, Bits(v) - 1) <= v)
  {
    if v > 1 {
      BitsBound(v / 2);
    } else {
      assert Bits(0) == 0 && Bits(1) == 1 + Bits(0) && Pow(2, 1) == 2 * Pow(2, 0);
    }
  }

  /** my_get_order: for every positive value the result is its ceil(log2). */
  method MyGetOrder(value: nat) returns (shifts: nat)
    ensures value > 0 ==> IsOrder(value, shifts)
    ensures value == 0 ==> shifts == 0
  {
    shifts := 0;
    if value == 0 {
      return 0;
    }
    var v := value;
    BitTrick(value);
    if And(v, v - 1) == 0 {
      v := v - 1;
    }
    BitsBound(v);
    ghost var bits := Bits(v);
    while v > 0
      invariant shifts + Bits(v) == bits
    {
      v := v / 2;
      shifts := shifts + 1;
    }
  }

  /** The sizes thread_fn computes: structs per page, pages, and the allocation order. 2^order pages
      hold all structs and, unless the order is 0, half as many do not. */
  method PlanAllocation(structs: nat, pageSize: nat) returns (perPage: nat, pages: nat, order: nat)
    requires pageSize >= 4 * WORDS
    ensures perPage == pageSize / (4 * WORDS) >= 1
    ensures structs <= pages * perPage && (pages > 0 ==> (pages - 1) * perPage < structs)
    ensures structs <= Pow(2, order) * perPage
    ensures order > 0 ==> Pow(2, order - 1) * perPage < structs
  {
    perPage := pageSize / (4 * WORDS);
    pages := structs / perPage + if structs % perPage == 0 then 0 else 1;
    order := MyGetOrder(pages);
    PagesSuffice(structs, perPage, pages);
    if pages > 0 {
      Scale(pages, Pow(2, order), perPage);
    }
    if order > 0 {
      Scale(Pow(2, order - 1), pages - 1, perPage);
    }
  }

  lemma Scale(a: nat, b: nat, c: nat)
    requires a <= b
    ensures a * c <= b * c
  {
    assert (b - a) * c >= 0;
  }

  lemma PagesSuffice(structs: nat, perPage: nat, pages: nat)
    requires perPage >= 1 && pages == structs / perPage + if structs % perPage == 0 then 0 else 1
    ensures structs <= pages * perPage && (pages > 0 ==> (pages - 1) * perPage < structs)
  {
    var q := structs / perPage;
    assert structs == perPage * q + structs % perPage;
  }

  // The labelling pass

  /** The label of word n of struct j on page i, in 32-bit unsigned arithmetic. */
  function Label(perPage: nat, i: nat, j: nat, n: nat): nat {
    (At(perPage, i, j) * WORDS + n) % WRAP
  }

  /** The label as the loops write it. */
  lemma LabelAsWritten(perPage: nat, i: nat, j: nat, n: nat)
    ensures Label(perPage, i, j, n) == (i * perPage * WORDS + j * WORDS + n) % WRAP
  {
    AtIsRowMajor(perPage, i, j);
  }

  /** All pages before (i, j, n) in the loops' order carry their labels. */
  ghost predicate LabelledUpTo(mem: array2<nat>, perPage: nat, i: nat, j: nat, n: nat)
    requires mem.Length1 >= perPage * WORDS
    reads mem
  {
    forall i', j', n' | 0 <= i' < mem.Length0 && 0 <= j' < perPage && 0 <= n' < WORDS ::
      (i' < i || (i' == i && (j' < j || (j' == j && n' < n)))) ==>
        mem[i', Word(perPage, j', n')] == Label(perPage, i', j', n')
  }

  /** Position of word n of struct j inside its page. */
  function Word(perPage: nat, j: nat, n: nat): (w: nat)
    requires j < perPage && n < WORDS
    ensures w < perPage * WORDS
  {
    j * WORDS + n
  }

  /** The first loop nest of thread_fn. It writes nothing but the words of the structs. */
  method Fill(mem: array2<nat>, perPage: nat)
    requires mem.Length1 >= perPage * WORDS
    modifies mem
    ensures LabelledUpTo(mem, perPage, mem.Length0, 0, 0)
    ensures forall i, w | 0 <= i < mem.Length0 && perPage * WORDS <= w < mem.Length1 :: mem[i, w] == old(mem[i, w])
  {
    for i := 0 to mem.Length0
      invariant LabelledUpTo(mem, perPage, i, 0, 0)
      invariant forall i, w | 0 <= i < mem.Length0 && perPage * WORDS <= w < mem.Length1 :: mem[i, w] == old(mem[i, w])
    {
      for j := 0 to perPage
        invariant LabelledUpTo(mem, perPage, i, j, 0)
        invariant forall i, w | 0 <= i < mem.Length0 && perPage * WORDS <= w < mem.Length1 ::
          mem[i, w] == old(mem[i, w])
      {
        for n := 0 to WORDS
          invariant LabelledUpTo(mem, perPage, i, j, n)
          invariant forall i, w | 0 <= i < mem.Length0 && perPage * WORDS <= w < mem.Length1 ::
            mem[i, w] == old(mem[i, w])
        {
          LabelAsWritten(perPage, i, j, n);
          mem[i, Word(perPage, j, n)] := (i * perPage * WORDS + j * WORDS + n) % WRAP;
        }
      }
    }
  }

  /** How many words before (i, j, n) in the loops' order do not carry their label. */
  ghost function Mislabelled(mem: array2<nat>, perPage: nat, i: nat, j: nat, n: nat): nat
    requires mem.Length1 >= perPage * WORDS && n <= WORDS && j <= perPage && i <= mem.Length0
    requires (n > 0 ==> j < perPage) && (n > 0 || j > 0 ==> i < mem.Length0)
    reads mem
    decreases i, j, n
  {
    if n > 0 then
      Mislabelled(mem, perPage, i, j, n - 1) +
      if mem[i, Word(perPage, j, n - 1)] != Label(perPage, i, j, n - 1) then 1 else 0
    else if j > 0 then Mislabelled(mem, perPage, i, j - 1, WORDS)
    else if i > 0 then Mislabelled(mem, perPage, i - 1, perPage, 0)
    else 0
  }

  /** The second loop nest: one report for each word that does not carry its label. */
  method CountMismatches(mem: array2<nat>, perPage: nat) returns (errors: nat)
    requires mem.Length1 >= perPage * WORDS
    ensures errors == Mislabelled(mem, perPage, mem.Length0, 0, 0)
    ensures errors == 0 <==> LabelledUpTo(mem, perPage, mem.Length0, 0, 0)
  {
    errors := 0;
    for i := 0 to mem.Length0
      invariant errors == Mislabelled(mem, perPage, i, 0, 0)
      invariant errors == 0 <==> LabelledUpTo(mem, perPage, i, 0, 0)
    {
      for j := 0 to perPage
        invariant errors == Mislabelled(mem, perPage, i, j, 0)
        invariant errors == 0 <==> LabelledUpTo(mem, perPage, i, j, 0)
      {
        for n := 0 to WORDS
          invariant errors == Mislabelled(mem, perPage, i, j, n)
          invariant errors == 0 <==> LabelledUpTo(mem, perPage, i, j, n)
        {
          LabelAsWritten(perPage, i, j, n);
          if mem[i, Word(perPage, j, n)] != (i * perPage * WORDS + j * WORDS + n) % WRAP {
            errors := errors + 1;
          }
        }
      }
    }
  }

  /** Fill, then verify: no mismatch is ever reported, whether or not the labels wrap. */
  method FillAndVerify(mem: array2<nat>, perPage: nat) returns (errors: nat)
    requires mem.Length1 >= perPage * WORDS
    modifies mem
    ensures errors == 0 && LabelledUpTo(mem, perPage, mem.Length0, 0, 0)
    ensures forall i, w | 0 <= i < mem.Length0 && perPage * WORDS <= w < mem.Length1 :: mem[i, w] == old(mem[i, w])
  {
    Fill(mem, perPage);
    errors := CountMismatches(mem, perPage);
  }

  // When labels are distinct

  ghost predicate LabelsDistinct(pages: nat, perPage: nat) {
    forall i, j, n, i', j', n' |
      0 <= i < pages && 0 <= j < perPage && 0 <= n < WORDS &&
      0 <= i' < pages && 0 <= j' < perPage && 0 <= n' < WORDS &&
      Label(perPage, i, j, n) == Label(perPage, i', j', n') ::
      (i, j, n) == (i', j', n')
  }

  /** The labels tell all words apart exactly when there are at most 2^32 of them. */
  lemma LabelTheorem(pages: nat, perPage: nat)
    requires perPage >= 1
    ensures LabelsDistinct(pages, perPage) <==> pages * perPage * WORDS <= WRAP
  {
    AtIsRowMajor(perPage, pages, 0);
    if pages * perPage * WORDS <= WRAP {
      SmallIsDistinct(pages, perPage);
    } else {
      var i, j := Locate(perPage, pages, WRAP / WORDS);
      assert Label(perPage, i, j, 0) == 0 == Label(perPage, 0, 0, 0);
      assert (i, j, 0) != (0, 0, 0);
    }
  }

  lemma SmallIsDistinct(pages: nat, perPage: nat)
    requires At(perPage, pages, 0) * WORDS <= WRAP
    ensures LabelsDistinct(pages, perPage)
  {
    forall i, j, n, i', j', n' |
      0 <= i < pages && 0 <= j < perPage && 0 <= n < WORDS &&
      0 <= i' < pages && 0 <= j' < perPage && 0 <= n' < WORDS &&
      Label(perPage, i, j, n) == Label(perPage, i', j', n')
      ensures (i, j, n) == (i', j', n')
    {
      SameLabel(pages, perPage, i, j, n, i', j', n');
    }
  }

  lemma SameLabel(pages: nat, perPage: nat, i: nat, j: nat, n: nat, i': nat, j': nat, n': nat)
    requires At(perPage, pages, 0) * WORDS <= WRAP
    requires i < pages && j < perPage && n < WORDS && i' < pages && j' < perPage && n' < WORDS
    requires Label(perPage, i, j, n) == Label(perPage, i', j', n')
    ensures i == i' && j == j' && n == n'
  {
    AtOrdered(perPage, i, j, pages);
    AtOrdered(perPage, i', j', pages);
    assert At(perPage, i, j) * WORDS + n == At(perPage, i', j') * WORDS + n';
    AtInjective(perPage, i, j, i', j');
  }
}
