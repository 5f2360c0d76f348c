/** Studio 15: the randomized in-place quicksort of sort.c. Elements are doubles, modelled as reals; `swap`
    and the pivot value go through an `unsigned`, which drops fractions. The slice always ends up sorted;
    it is a permutation of what it was for every choice of pivots if and only if all its elements are
    whole numbers, as those the program fills its array with are. */
module Quicksort {
  import opened Primes

  const LIMIT: real := 4294967296.0

  /** A double whose conversion to a 32-bit `unsigned` C defines (section 6.3.1.4 of ISO C11). */
  predicate Convertible(x: real) {
    -1.0 < x < LIMIT
  }

  /** A double that survives the trip through `unsigned`. */
  predicate Whole(x: real) {
    0.0 <= x < LIMIT && x == x.Floor as real
  }

  /** Conversion to `unsigned`: the fraction is dropped. */
  function Truncated(x: real): real {
    if x < 0.0 then -((-x).Floor as real) else x.Floor as real
  }

  lemma TruncatedIsWhole(x: real)
    requires Convertible(x)
    ensures Whole(Truncated(x)) && Truncated(Truncated(x)) == Truncated(x)
    ensures Truncated(x) == x <==> Whole(x)
  {
  }

  /** Dropping the fraction never crosses a whole number. */
  lemma TruncatedStays(x: real, pivotValue: real)
    requires Convertible(x) && Whole(pivotValue)
    ensures x <= pivotValue ==> Truncated(x) <= pivotValue
    ensures x >= pivotValue ==> Truncated(x) >= pivotValue
  {
    if x < 0.0 {
      assert (-x).Floor == 0;
    } else if x >= pivotValue {
      assert x.Floor >= pivotValue.Floor;
    }
  }

  // Elements and their fractions

  function Swapped(s: seq<real>, i: nat, j: nat): seq<real>
    requires i < |s| && j < |s|
  {
    s[i := s[j]][j := s[i]]
  }

  /** What swap leaves behind. */
  function Exchanged(s: seq<real>, i: nat, j: nat): seq<real>
    requires i < |s| && j < |s|
  {
    s[i := s[j]][j := Truncated(s[i])]
  }

  /** The elements without their fractions, by recursion for the same reason as Bag. */
  function WholeParts(s: seq<real>): seq<real> {
    if s == [] then [] else [Truncated(s[0])] + WholeParts(s[1..])
  }

  lemma {:induction false} WholePartsAre(s: seq<real>)
    ensures |WholeParts(s)| == |s| && forall i | 0 <= i < |s| :: WholeParts(s)[i] == Truncated(s[i])
  {
    if s != [] {
      WholePartsAre(s[1..]);
    }
  }

  /** How many elements have a fraction to lose. */
  function Fractions(s: seq<real>): nat {
    if s == [] then 0 else (if Whole(s[0]) then 0 else 1) + Fractions(s[1..])
  }

  /** The elements of s with their multiplicities, defined by recursion so that it is unfolded only
      where BagIsMultiset is called. */
  ghost function Bag(s: seq<real>): multiset<real> {
    if s == [] then multiset{} else multiset{s[0]} + Bag(s[1..])
  }

  lemma {:induction false} BagIsMultiset(s: seq<real>)
    ensures Bag(s) == multiset(s)
  {
    if s != [] {
      BagIsMultiset(s[1..]);
      assert s == [s[0]] + s[1..];
    }
  }

  lemma {:induction false} FractionsUpdate(s: seq<real>, i: nat, x: real)
    requires i < |s|
    ensures Fractions(s[i := x]) == Fractions(s) - (if Whole(s[i]) then 0 else 1) + if Whole(x) then 0 else 1
  {
    if i == 0 {
      assert s[0 := x][1..] == s[1..];
    } else {
      FractionsUpdate(s[1..], i - 1, x);
      assert s[i := x][1..] == s[1..][i - 1 := x];
    }
  }

  lemma {:induction false} FractionsPointwise(s: seq<real>, s': seq<real>)
    requires |s| == |s'| && forall i | 0 <= i < |s| :: Whole(s[i]) <==> Whole(s'[i])
    ensures Fractions(s) == Fractions(s')
  {
    if s != [] {
      FractionsPointwise(s[1..], s'[1..]);
    }
  }

  lemma {:induction false} FractionsAppend(a: seq<real>, b: seq<real>)
    ensures Fractions(a + b) == Fractions(a) + Fractions(b)
  {
    if a == [] {
      assert a + b == b;
    } else {
      FractionsAppend(a[1..], b);
      assert (a + b)[1..] == a[1..] + b;
    }
  }

  function Without(s: seq<real>, k: nat): seq<real>
    requires k < |s|
  {
    s[..k] + s[k + 1..]
  }

  lemma WithoutFractions(s: seq<real>, k: nat)
    requires k < |s|
    ensures Fractions(s) == Fractions(Without(s, k)) + if Whole(s[k]) then 0 else 1
  {
    var front, back := s[..k], s[k..];
    FractionsAppend(front, s[k + 1..]);
    FractionsAppend(front, back);
    FractionsHead(back);
    assert back[1..] == s[k + 1..] && back[0] == s[k];
    assert s == front + back;
  }

  lemma FractionsHead(s: seq<real>)
    requires s != []
    ensures Fractions(s) == (if Whole(s[0]) then 0 else 1) + Fractions(s[1..])
  {
  }

  lemma WithoutMultiset(s: seq<real>, k: nat)
    requires k < |s|
    ensures multiset(Without(s, k)) == multiset(s) - multiset{s[k]}
  {
    assert s == s[..k] + [s[k]] + s[k + 1..];
  }

  /** Equal bags have equally many fractions. */
  lemma {:induction false} BagFractions(s: seq<real>, s': seq<real>)
    requires multiset(s) == multiset(s')
    ensures Fractions(s) == Fractions(s')
    decreases |s|
  {
    assert |multiset(s)| == |s| && |multiset(s')| == |s'|;
    if s != [] {
      assert s[0] in multiset(s');
      var k :| 0 <= k < |s'| && s'[k] == s[0];
      WithoutMultiset(s, 0);
      WithoutMultiset(s', k);
      BagFractions(Without(s, 0), Without(s', k));
      WithoutFractions(s, 0);
      WithoutFractions(s', k);
    }
  }

  lemma SwapKeepsBag(s: seq<real>, i: nat, j: nat)
    requires i < |s| && j < |s|
    ensures multiset(Swapped(s, i, j)) == multiset(s)
  {
    var x, y := s[i], s[j];
    var t := s[i := y];
    assert multiset(t) == multiset(s) - multiset{x} + multiset{y};
    assert t[j] == y;
    assert multiset(t[j := x]) == multiset(t) - multiset{y} + multiset{x};
    assert x in multiset(s);
  }

  lemma SwapKeepsBags(s: seq<real>, i: nat, j: nat)
    requires i < |s| && j < |s|
    ensures Bag(Swapped(s, i, j)) == Bag(s)
  {
    SwapKeepsBag(s, i, j);
    BagIsMultiset(s);
    BagIsMultiset(Swapped(s, i, j));
  }

  // What sorting does to a slice

  ghost predicate SortedBetween(s: seq<real>, lo: nat, hi: nat) {
    forall i, j | lo <= i < j < hi && j < |s| :: s[i] <= s[j]
  }

  predicate ConvertibleBetween(s: seq<real>, lo: nat, hi: nat) {
    forall i | lo <= i < hi && i < |s| :: Convertible(s[i])
  }

  predicate WholeBetween(s: seq<real>, lo: nat, hi: nat) {
    forall i | lo <= i < hi && i < |s| :: Whole(s[i])
  }

  /** s' is s with the elements of [lo, hi) rearranged. */
  ghost predicate Rearranged(s: seq<real>, s': seq<real>, lo: nat, hi: nat) {
    && |s| == |s'|
    && Bag(s) == Bag(s')
    && forall i | 0 <= i < |s| && !(lo <= i < hi) :: s'[i] == s[i]
  }

  /** x is an element of s in [lo, hi), or one without its fraction. */
  ghost predicate Comes(s: seq<real>, lo: nat, hi: nat, x: real) {
    exists k :: lo <= k < hi && k < |s| && (x == s[k] || x == Truncated(s[k]))
  }

  /** s' is s with the elements of [lo, hi) rearranged and possibly without their fractions: whole parts
      keep their multiplicities, and if no fraction was lost so do the elements. */
  ghost predicate Moved(s: seq<real>, s': seq<real>, lo: nat, hi: nat) {
    && |s| == |s'|
    && (forall i | 0 <= i < |s| && !(lo <= i < hi) :: s'[i] == s[i])
    && (forall i {:trigger Comes(s, lo, hi, s'[i])} | lo <= i < hi && i < |s| :: Comes(s, lo, hi, s'[i]))
    && Bag(WholeParts(s)) == Bag(WholeParts(s'))
    && Fractions(s') <= Fractions(s)
    && (Fractions(s') == Fractions(s) ==> Bag(s) == Bag(s'))
  }

  lemma ConvertibleStays(s: seq<real>, s': seq<real>, lo: nat, hi: nat)
    requires ConvertibleBetween(s, lo, hi) && Moved(s, s', lo, hi)
    ensures ConvertibleBetween(s', lo, hi)
    ensures WholeBetween(s, lo, hi) ==> WholeBetween(s', lo, hi)
  {
    forall i | lo <= i < hi && i < |s'|
      ensures Convertible(s'[i]) && (WholeBetween(s, lo, hi) ==> Whole(s'[i]))
    {
      assert Comes(s, lo, hi, s'[i]);
      var k :| lo <= k < hi && k < |s| && (s'[i] == s[k] || s'[i] == Truncated(s[k]));
      TruncatedIsWhole(s[k]);
    }
  }

  lemma ConvertibleInside(s: seq<real>, lo: nat, hi: nat, lo': nat, hi': nat)
    requires ConvertibleBetween(s, lo, hi) && lo <= lo' && hi' <= hi
    ensures ConvertibleBetween(s, lo', hi')
  {
  }

  lemma MovedNowhere(s: seq<real>, lo: nat, hi: nat)
    ensures Moved(s, s, lo, hi)
  {
    assert forall i | lo <= i < hi && i < |s| :: Comes(s, lo, hi, s[i]);
  }

  lemma MovedFurther(s: seq<real>, s': seq<real>, s'': seq<real>, lo: nat, hi: nat, lo': nat, hi': nat)
    requires lo <= lo' && hi' <= hi && ConvertibleBetween(s, lo, hi)
    requires Moved(s, s', lo, hi) && Moved(s', s'', lo', hi')
    ensures Moved(s, s'', lo, hi)
  {
    forall i | lo <= i < hi && i < |s|
      ensures Comes(s, lo, hi, s''[i])
    {
      if lo' <= i < hi' {
        assert Comes(s', lo', hi', s''[i]);
        var k :| lo' <= k < hi' && k < |s'| && (s''[i] == s'[k] || s''[i] == Truncated(s'[k]));
        assert Comes(s, lo, hi, s'[k]);
        ComesTruncated(s, lo, hi, s'[k]);
      } else {
        assert Comes(s, lo, hi, s'[i]);
      }
    }
  }

  lemma ComesTruncated(s: seq<real>, lo: nat, hi: nat, x: real)
    requires ConvertibleBetween(s, lo, hi) && Comes(s, lo, hi, x)
    ensures Comes(s, lo, hi, Truncated(x))
  {
    var k :| lo <= k < hi && k < |s| && (x == s[k] || x == Truncated(s[k]));
    TruncatedIsWhole(s[k]);
    assert Truncated(x) == Truncated(s[k]);
  }

  /** A slice is rearranged exactly when no fraction was lost. */
  lemma RearrangedIffNothingLost(s: seq<real>, s': seq<real>, lo: nat, hi: nat)
    requires Moved(s, s', lo, hi)
    ensures Rearranged(s, s', lo, hi) <==> Fractions(s') == Fractions(s)
  {
    if Bag(s) == Bag(s') {
      BagIsMultiset(s);
      BagIsMultiset(s');
      BagFractions(s, s');
    }
  }

  /** Whole numbers have no fraction to lose. */
  lemma WholeIsRearranged(s: seq<real>, s': seq<real>, lo: nat, hi: nat)
    requires Moved(s, s', lo, hi) && ConvertibleBetween(s, lo, hi)
    ensures WholeBetween(s, lo, hi) ==> Rearranged(s, s', lo, hi)
  {
    if WholeBetween(s, lo, hi) {
      ConvertibleStays(s, s', lo, hi);
      assert forall i | 0 <= i < |s| :: Whole(s[i]) <==> Whole(s'[i]);
      FractionsPointwise(s, s');
    }
  }

  lemma BagSplit(s: seq<real>, lo: nat, hi: nat)
    requires lo <= hi <= |s|
    ensures Bag(s) == multiset(s[..lo]) + multiset(s[lo..hi]) + multiset(s[hi..])
  {
    BagIsMultiset(s);
    assert s == s[..lo] + s[lo..hi] + s[hi..];
  }

  lemma BagCancel(x: multiset<real>, a: multiset<real>, b: multiset<real>, y: multiset<real>)
    requires x + a + y == x + b + y
    ensures a == b
  {
    assert a == x + a + y - x - y;
  }

  /** A rearranged stretch is a permutation of what it was. */
  lemma StretchIsPermuted(s: seq<real>, s': seq<real>, lo: nat, hi: nat)
    requires lo <= hi <= |s| && Rearranged(s, s', lo, hi)
    ensures multiset(s[lo..hi]) == multiset(s'[lo..hi])
  {
    BagSplit(s, lo, hi);
    BagSplit(s', lo, hi);
    assert s[..lo] == s'[..lo] && s[hi..] == s'[hi..];
    BagCancel(multiset(s[..lo]), multiset(s[lo..hi]), multiset(s'[lo..hi]), multiset(s[hi..]));
  }

  // One exchange

  /** An exchange first drops a fraction, then swaps. */
  lemma ExchangeMoves(s: seq<real>, i: nat, j: nat, lo: nat, hi: nat)
    requires lo <= i < hi <= |s| && lo <= j < hi && ConvertibleBetween(s, lo, hi)
    ensures Moved(s, Exchanged(s, i, j), lo, hi)
    ensures Fractions(Exchanged(s, i, j)) == Fractions(s) - if Whole(s[i]) then 0 else 1
  {
    assert Convertible(s[i]);
    ExchangeFractions(s, i, j);
    ExchangeBags(s, i, j);
    ExchangeComes(s, i, j, lo, hi);
  }

  lemma ExchangeComes(s: seq<real>, i: nat, j: nat, lo: nat, hi: nat)
    requires lo <= i < hi <= |s| && lo <= j < hi
    ensures forall k | lo <= k < hi :: Comes(s, lo, hi, Exchanged(s, i, j)[k])
  {
    var s' := Exchanged(s, i, j);
    forall k | lo <= k < hi
      ensures Comes(s, lo, hi, s'[k])
    {
      var k' := if k == j then i else if k == i then j else k;
      assert s'[k] == s[k'] || s'[k] == Truncated(s[k']);
    }
  }

  lemma ExchangeBags(s: seq<real>, i: nat, j: nat)
    requires i < |s| && j < |s| && Convertible(s[i])
    ensures Bag(WholeParts(s)) == Bag(WholeParts(Exchanged(s, i, j)))
    ensures Whole(s[i]) ==> Bag(s) == Bag(Exchanged(s, i, j))
  {
    ExchangeParts(s, i, j);
    SwapKeepsBags(WholeParts(s), i, j);
    if Whole(s[i]) {
      TruncatedIsWhole(s[i]);
      SwapKeepsBags(s, i, j);
      assert Exchanged(s, i, j) == Swapped(s, i, j);
    }
  }

  lemma ExchangeParts(s: seq<real>, i: nat, j: nat)
    requires i < |s| && j < |s| && Convertible(s[i])
    ensures |WholeParts(s)| == |s| && WholeParts(Exchanged(s, i, j)) == Swapped(WholeParts(s), i, j)
  {
    TruncatedIsWhole(s[i]);
    WholePartsAre(s);
    WholePartsAre(Exchanged(s, i, j));
  }

  lemma ExchangeFractions(s: seq<real>, i: nat, j: nat)
    requires i < |s| && j < |s| && Convertible(s[i])
    ensures Fractions(Exchanged(s, i, j)) == Fractions(s) - if Whole(s[i]) then 0 else 1
  {
    TruncatedIsWhole(s[i]);
    FractionsUpdate(s, i, s[j]);
    FractionsUpdate(s[i := s[j]], j, Truncated(s[i]));
  }

  /** swap, through an `unsigned` temporary: an exchange exactly when the first element is whole. */
  method Swap(a: array<real>, i: nat, j: nat)
    requires i < a.Length && j < a.Length && Convertible(a[i])
    modifies a
    ensures a[..] == Exchanged(old(a[..]), i, j)
    ensures a[..] == Swapped(old(a[..]), i, j) <==> Whole(old(a[i]))
  {
    TruncatedIsWhole(a[i]);
    var temp := Truncated(a[i]);
    a[i] := a[j];
    a[j] := temp;
    assert a[..][j] == temp && Swapped(old(a[..]), i, j)[j] == old(a[i]);
  }

  // Partition

  /** Up to `index` the elements are parted: those up to the pivot below `target`, the others from there
      on, strictly above the pivot as long as no fraction was dropped. */
  ghost predicate Parted(s: seq<real>, start: nat, target: nat, index: nat, pivotValue: real, strict: bool)
    requires index <= |s|
  {
    && (forall i | start <= i < target && i < index :: s[i] <= pivotValue)
    && (forall i | target <= i < index :: s[i] >= pivotValue && (strict ==> s[i] > pivotValue))
  }

  lemma PartMore(s: seq<real>, start: nat, target: nat, index: nat, pivotValue: real, strict: bool)
    requires start <= target <= index < |s| && Parted(s, start, target, index, pivotValue, strict)
    requires s[index] <= pivotValue && Whole(pivotValue) && Convertible(s[target])
    requires strict ==> Whole(s[target])
    ensures Parted(Exchanged(s, target, index), start, target + 1, index + 1, pivotValue, strict)
  {
    TruncatedStays(s[target], pivotValue);
    TruncatedIsWhole(s[target]);
  }

  lemma PartSkip(s: seq<real>, start: nat, target: nat, index: nat, pivotValue: real, strict: bool)
    requires index < |s| && Parted(s, start, target, index, pivotValue, strict) && s[index] > pivotValue
    requires target <= index
    ensures Parted(s, start, target, index + 1, pivotValue, strict)
  {
  }

  lemma PartDone(s: seq<real>, start: nat, target: nat, end: nat, strict: bool)
    requires start <= target <= end < |s| && Parted(s, start, target, end, s[end], strict)
    requires Whole(s[end]) && Convertible(s[target]) && (strict ==> Whole(s[target]))
    ensures var s' := Exchanged(s, target, end);
      && s'[target] == s[end] && Parting(s', start, target, end)
      && (strict ==> forall i | target < i <= end :: s'[i] > s'[target])
  {
    TruncatedStays(s[target], s[end]);
    TruncatedIsWhole(s[target]);
  }

  /** The slice is parted around the pivot at `target`. */
  ghost predicate Parting(s: seq<real>, start: nat, target: nat, end: nat)
    requires target <= end < |s|
  {
    && (forall i | start <= i < target :: s[i] <= s[target])
    && (forall i | target < i <= end :: s[i] >= s[target])
  }

  /** The place rand picks: its remainder by the length of the slice, counted down. */
  function Pick(start: nat, end: nat, rand: nat): (pivot: nat)
    requires start < end
    ensures start <= pivot < end
  {
    if rand < end - start then start + rand else Pick(start, end, rand - (end - start))
  }

  lemma {:induction false} PickIsRemainder(start: nat, end: nat, rand: nat)
    requires start < end
    ensures Pick(start, end, rand) == rand % (end - start) + start
  {
    var range := end - start;
    if rand < range {
      DivModUnique(rand, range, 0, rand);
    } else {
      PickIsRemainder(start, end, rand - range);
      DivModStep(rand, range);
    }
  }

  /** A pivot that is bound to cost a fraction: it has one, or it is the first element and the last, which
      takes its place, has one. */
  predicate Unlucky(s: seq<real>, start: nat, end: nat, pivot: nat)
    requires start <= pivot < end < |s|
  {
    !Whole(s[pivot]) || (pivot == start && !Whole(s[end]))
  }

  /** partition: whatever rand answers, the pivot ends up at its place in the sorted order of the slice. */
  method Partition(a: array<real>, start: nat, end: nat, rand: nat) returns (target: nat)
    requires start < end < a.Length && ConvertibleBetween(a[..], start, end + 1)
    modifies a
    ensures start <= target <= end && Whole(a[..][target])
    ensures Moved(old(a[..]), a[..], start, end + 1)
    ensures Parting(a[..], start, target, end)
    ensures WholeBetween(old(a[..]), start, end + 1) ==> forall i | target < i <= end :: a[..][i] > a[..][target]
    ensures Unlucky(old(a[..]), start, end, Pick(start, end, rand)) ==> Fractions(a[..]) < Fractions(old(a[..]))
    ensures a[..][target] == Truncated(old(a[Pick(start, end, rand)]))
  {
    PickIsRemainder(start, end, rand);
    var range := end - start;
    var pivot := rand % range + start;
    target := PartitionAt(a, start, end, pivot);
  }

  /** partition on whole numbers: its announcement comes true if and only if the pivot's value occurs once
      in the slice. */
  method PartitionWhole(a: array<real>, start: nat, end: nat, rand: nat) returns (target: nat)
    requires start < end < a.Length && WholeBetween(a[..], start, end + 1)
    modifies a
    ensures start <= target <= end && a[..][target] == old(a[Pick(start, end, rand)])
    ensures Rearranged(old(a[..]), a[..], start, end + 1)
    ensures KeepsPromise(a[..], start, target, end) <==> Occurs(old(a[..]), start, end + 1, a[..][target]) == 1
  {
    ghost var s := a[..];
    WholeIsConvertible(s, start, end + 1);
    target := Partition(a, start, end, rand);
    TruncatedIsWhole(s[Pick(start, end, rand)]);
    WholeIsRearranged(s, a[..], start, end + 1);
    PromiseKept(s, a[..], start, target, end);
  }

  lemma WholeIsConvertible(s: seq<real>, lo: nat, hi: nat)
    requires WholeBetween(s, lo, hi)
    ensures ConvertibleBetween(s, lo, hi)
  {
  }

  /** What partition announces: smaller elements before the pivot, larger ones after it. */
  ghost predicate KeepsPromise(s: seq<real>, start: nat, target: nat, end: nat)
    requires target <= end < |s|
  {
    && (forall i | start <= i < target :: s[i] < s[target])
    && (forall i | target < i <= end :: s[i] > s[target])
  }

  /** How often x is among the elements of [lo, hi). */
  ghost function Occurs(s: seq<real>, lo: nat, hi: nat, x: real): nat
    requires lo <= hi <= |s|
  {
    multiset(s[lo..hi])[x]
  }

  /** Elements equal to the pivot end up before it, so that the announcement holds exactly when the pivot's
      value occurs once. */
  lemma PromiseKept(s: seq<real>, s': seq<real>, start: nat, target: nat, end: nat)
    requires start <= target <= end < |s| && Rearranged(s, s', start, end + 1) && Parting(s', start, target, end)
    requires forall i | target < i <= end :: s'[i] > s'[target]
    ensures KeepsPromise(s', start, target, end) <==> Occurs(s, start, end + 1, s'[target]) == 1
  {
    StretchIsPermuted(s, s', start, end + 1);
    OccursOnce(s', start, target, end);
  }

  lemma OccursOnce(s: seq<real>, start: nat, target: nat, end: nat)
    requires start <= target <= end < |s| && Parting(s, start, target, end)
    requires forall i | target < i <= end :: s[i] > s[target]
    ensures KeepsPromise(s, start, target, end) <==> Occurs(s, start, end + 1, s[target]) == 1
  {
    OccursAround(s, start, target, end);
    OccursIn(s, start, target, s[target]);
    OccursIn(s, target + 1, end + 1, s[target]);
  }

  lemma OccursAround(s: seq<real>, start: nat, target: nat, end: nat)
    requires start <= target <= end < |s|
    ensures var p := s[target];
      Occurs(s, start, end + 1, p) == Occurs(s, start, target, p) + 1 + Occurs(s, target + 1, end + 1, p)
  {
    assert s[start..end + 1] == s[start..target] + [s[target]] + s[target + 1..end + 1];
  }

  lemma OccursIn(s: seq<real>, lo: nat, hi: nat, x: real)
    requires lo <= hi <= |s|
    ensures Occurs(s, lo, hi, x) == 0 <==> forall i | lo <= i < hi :: s[i] != x
  {
    var part := s[lo..hi];
    assert x in multiset(part) <==> x in part;
    assert forall i | lo <= i < hi :: s[i] == part[i - lo];
  }

  /** Two equal elements are enough to break it. */
  lemma EqualElementsBreakPromise(x: real)
    ensures Occurs([x, x], 0, 2, x) == 2 && !KeepsPromise([x, x], 0, 1, 1)
  {
    var s := [x, x];
    assert s[0..2] == s && multiset(s) == multiset{x, x};
    assert s[0] == s[1];
  }

  /** partition once the pivot is picked. */
  method PartitionAt(a: array<real>, start: nat, end: nat, pivot: nat) returns (target: nat)
    requires start <= pivot < end < a.Length && ConvertibleBetween(a[..], start, end + 1)
    modifies a
    ensures start <= target <= end && Whole(a[..][target])
    ensures Moved(old(a[..]), a[..], start, end + 1)
    ensures Parting(a[..], start, target, end)
    ensures WholeBetween(old(a[..]), start, end + 1) ==> forall i | target < i <= end :: a[..][i] > a[..][target]
    ensures a[..][target] == Truncated(old(a[pivot]))
    ensures Unlucky(old(a[..]), start, end, pivot) ==> Fractions(a[..]) < Fractions(old(a[..]))
  {
    ghost var s := a[..];
    ScanStart(s, start, end, pivot);
    Swap(a, pivot, end);
    ghost var s1 := a[..];
    var pivotValue := Truncated(a[end]);
    target := start;
    for index := start to end
      invariant start <= target <= index && Scanned(s, s1, a[..], start, target, index, end, pivotValue)
    {
      if a[index] <= pivotValue {
        ScanSwap(s, s1, a[..], start, target, index, end, pivotValue);
        Swap(a, target, index);
        target := target + 1;
      } else {
        ScanSkip(s, s1, a[..], start, target, index, end, pivotValue);
      }
    }
    ScanDone(s, s1, a[..], start, target, end, pivotValue);
    Swap(a, target, end);
  }

  /** Where the loop of partition stands, started on s1, the slice of s with its pivot moved to the end. */
  ghost predicate Scanned(s: seq<real>, s1: seq<real>, cur: seq<real>,
                          start: nat, target: nat, index: nat, end: nat, pivotValue: real)
  {
    && start <= target <= index <= end < |s| == |cur| == |s1|
    && ConvertibleBetween(s, start, end + 1) && Moved(s, cur, start, end + 1)
    && cur[end] == pivotValue && Whole(pivotValue)
    && Parted(cur, start, target, index, pivotValue, WholeBetween(s, start, end + 1))
    && Fractions(cur) <= Fractions(s1)
    && (target == start ==> cur == s1)
    && (target > start && !Whole(s1[start]) ==> Fractions(cur) < Fractions(s1))
  }

  lemma ScanStart(s: seq<real>, start: nat, end: nat, pivot: nat)
    requires start <= pivot < end < |s| && ConvertibleBetween(s, start, end + 1)
    ensures var s1 := Exchanged(s, pivot, end);
      && Convertible(s[pivot])
      && Scanned(s, s1, s1, start, start, start, end, Truncated(s1[end])) && Truncated(s1[end]) == Truncated(s[pivot])
      && (Unlucky(s, start, end, pivot) ==> Fractions(s1) < Fractions(s) || !Whole(s1[start]))
      && Fractions(s1) <= Fractions(s)
  {
    assert Convertible(s[pivot]);
    ScanBegins(s, start, end, pivot);
    PivotIsWhole(s, pivot, end);
    UnluckyStart(s, start, end, pivot);
  }

  lemma ScanBegins(s: seq<real>, start: nat, end: nat, pivot: nat)
    requires start <= pivot < end < |s| && ConvertibleBetween(s, start, end + 1) && Convertible(s[pivot])
    ensures var s1 := Exchanged(s, pivot, end); Scanned(s, s1, s1, start, start, start, end, Truncated(s1[end]))
  {
    var s1 := Exchanged(s, pivot, end);
    ExchangeMoves(s, pivot, end, start, end + 1);
    PivotIsWhole(s, pivot, end);
    assert Parted(s1, start, start, start, s1[end], WholeBetween(s, start, end + 1));
  }

  lemma UnluckyStart(s: seq<real>, start: nat, end: nat, pivot: nat)
    requires start <= pivot < end < |s| && Convertible(s[pivot])
    ensures var s1 := Exchanged(s, pivot, end);
      && (Unlucky(s, start, end, pivot) ==> Fractions(s1) < Fractions(s) || !Whole(s1[start]))
      && Fractions(s1) <= Fractions(s)
  {
    ExchangeFractions(s, pivot, end);
    assert pivot == start ==> Exchanged(s, pivot, end)[start] == s[end];
  }

  lemma PivotIsWhole(s: seq<real>, pivot: nat, end: nat)
    requires pivot < end < |s| && Convertible(s[pivot])
    ensures var s1 := Exchanged(s, pivot, end);
      Whole(s1[end]) && Truncated(s1[end]) == s1[end] == Truncated(s[pivot]) && s1[pivot] == s[end]
  {
    TruncatedIsWhole(s[pivot]);
  }

  lemma ScanSkip(s: seq<real>, s1: seq<real>, cur: seq<real>,
                 start: nat, target: nat, index: nat, end: nat, pivotValue: real)
    requires Scanned(s, s1, cur, start, target, index, end, pivotValue) && index < end && cur[index] > pivotValue
    ensures Scanned(s, s1, cur, start, target, index + 1, end, pivotValue)
  {
    PartSkip(cur, start, target, index, pivotValue, WholeBetween(s, start, end + 1));
  }

  lemma ScanSwap(s: seq<real>, s1: seq<real>, cur: seq<real>,
                 start: nat, target: nat, index: nat, end: nat, pivotValue: real)
    requires Scanned(s, s1, cur, start, target, index, end, pivotValue) && index < end && cur[index] <= pivotValue
    ensures Convertible(cur[target])
    ensures Scanned(s, s1, Exchanged(cur, target, index), start, target + 1, index + 1, end, pivotValue)
  {
    var strict := WholeBetween(s, start, end + 1);
    MoveMore(s, cur, target, index, start, end + 1);
    PartMore(cur, start, target, index, pivotValue, strict);
  }

  lemma ScanDone(s: seq<real>, s1: seq<real>, cur: seq<real>, start: nat, target: nat, end: nat, pivotValue: real)
    requires Scanned(s, s1, cur, start, target, end, end, pivotValue)
    ensures var s' := Exchanged(cur, target, end);
      && Convertible(cur[target]) && Whole(s'[target]) && s'[target] == pivotValue && Moved(s, s', start, end + 1)
      && Parting(s', start, target, end)
      && (WholeBetween(s, start, end + 1) ==> forall i | target < i <= end :: s'[i] > s'[target])
      && Fractions(s') <= Fractions(s1) && (!Whole(s1[start]) ==> Fractions(s') < Fractions(s1))
  {
    MoveMore(s, cur, target, end, start, end + 1);
    PartDone(cur, start, target, end, WholeBetween(s, start, end + 1));
  }

  /** One more exchange inside a slice that has been moved. */
  lemma MoveMore(s: seq<real>, cur: seq<real>, i: nat, j: nat, lo: nat, hi: nat)
    requires ConvertibleBetween(s, lo, hi) && Moved(s, cur, lo, hi) && lo <= i < hi <= |cur| && lo <= j < hi
    ensures Moved(s, Exchanged(cur, i, j), lo, hi) && Convertible(cur[i])
    ensures Fractions(Exchanged(cur, i, j)) == Fractions(cur) - if Whole(cur[i]) then 0 else 1
    ensures WholeBetween(s, lo, hi) ==> Whole(cur[i])
  {
    ConvertibleStays(s, cur, lo, hi);
    ExchangeMoves(cur, i, j, lo, hi);
    MovedFurther(s, cur, Exchanged(cur, i, j), lo, hi, lo, hi);
  }

  // Quicksort

  /** quicksort: for every sequence of random pivots the slice ends up sorted and nothing outside it
      changes; whole parts keep their multiplicities, and whole elements are rearranged. The type of
      `pivot - 1` shows it never goes below zero. */
  method Sort(a: array<real>, start: nat, end: nat)
    requires end < a.Length && ConvertibleBetween(a[..], start, end + 1)
    modifies a
    ensures SortedBetween(a[..], start, end + 1)
    ensures Moved(old(a[..]), a[..], start, end + 1)
    ensures WholeBetween(old(a[..]), start, end + 1) ==> Rearranged(old(a[..]), a[..], start, end + 1)
    decreases end - start, 1
  {
    ghost var s := a[..];
    if start < end {
      var rand: nat := *;
      SortFrom(a, start, end, rand);
    } else {
      MovedNowhere(s, start, end + 1);
    }
    WholeIsRearranged(s, a[..], start, end + 1);
  }

  /** quicksort with the first answer of rand given. */
  method SortFrom(a: array<real>, start: nat, end: nat, rand: nat)
    requires start < end < a.Length && ConvertibleBetween(a[..], start, end + 1)
    modifies a
    ensures SortedBetween(a[..], start, end + 1)
    ensures Moved(old(a[..]), a[..], start, end + 1)
    ensures Unlucky(old(a[..]), start, end, Pick(start, end, rand)) ==> Fractions(a[..]) < Fractions(old(a[..]))
    decreases end - start, 0
  {
    ghost var s0 := a[..];
    var pivot := Partition(a, start, end, rand);
    ghost var s1 := a[..];
    ConvertibleStays(s0, s1, start, end + 1);
    ConvertibleInside(s1, start, end + 1, start, pivot);
    SortBelow(a, start, pivot);
    ghost var s2 := a[..];
    LeftDone(s0, s1, s2, start, pivot, end);
    SortAbove(a, pivot, end);
    RightDone(s0, s2, a[..], start, pivot, end);
  }

  /** The first recursive call, on what lies before the pivot. */
  method SortBelow(a: array<real>, start: nat, pivot: nat)
    requires start <= pivot < a.Length && ConvertibleBetween(a[..], start, pivot)
    modifies a
    ensures SortedBetween(a[..], start, pivot) && Moved(old(a[..]), a[..], start, pivot)
    decreases pivot - start - 1, 2
  {
    if pivot > start {
      Sort(a, start, pivot - 1);
    } else {
      MovedNowhere(a[..], start, pivot);
    }
  }

  /** The second one, on what lies after it. */
  method SortAbove(a: array<real>, pivot: nat, end: nat)
    requires pivot <= end < a.Length && ConvertibleBetween(a[..], pivot + 1, end + 1)
    modifies a
    ensures SortedBetween(a[..], pivot + 1, end + 1) && Moved(old(a[..]), a[..], pivot + 1, end + 1)
    decreases end - pivot - 1, 2
  {
    if pivot < end {
      Sort(a, pivot + 1, end);
    } else {
      MovedNowhere(a[..], pivot + 1, end + 1);
    }
  }

  /** What lies on one side of a whole number stays there. */
  lemma SideStays(s: seq<real>, s': seq<real>, lo: nat, hi: nat, p: real)
    requires Moved(s, s', lo, hi) && ConvertibleBetween(s, lo, hi) && Whole(p)
    ensures (forall k | lo <= k < hi && k < |s| :: s[k] <= p) ==> forall i | lo <= i < hi && i < |s'| :: s'[i] <= p
    ensures (forall k | lo <= k < hi && k < |s| :: s[k] >= p) ==> forall i | lo <= i < hi && i < |s'| :: s'[i] >= p
  {
    forall i | lo <= i < hi && i < |s'|
      ensures (forall k | lo <= k < hi && k < |s| :: s[k] <= p) ==> s'[i] <= p
      ensures (forall k | lo <= k < hi && k < |s| :: s[k] >= p) ==> s'[i] >= p
    {
      assert Comes(s, lo, hi, s'[i]);
      var k :| lo <= k < hi && k < |s| && (s'[i] == s[k] || s'[i] == Truncated(s[k]));
      TruncatedStays(s[k], p);
    }
  }

  lemma PrefixStays(s: seq<real>, s': seq<real>, lo: nat, hi: nat)
    requires Moved(s, s', lo, hi) && lo <= |s|
    ensures |s| == |s'| && s'[..lo] == s[..lo]
  {
  }

  /** Sorting the left part keeps the pivot's place. */
  lemma LeftDone(s0: seq<real>, s1: seq<real>, s2: seq<real>, start: nat, pivot: nat, end: nat)
    requires start <= pivot <= end < |s1| && Whole(s1[pivot])
    requires ConvertibleBetween(s0, start, end + 1) && ConvertibleBetween(s1, start, pivot)
    requires Moved(s0, s1, start, end + 1) && Moved(s1, s2, start, pivot) && Parting(s1, start, pivot, end)
    ensures Moved(s0, s2, start, end + 1) && ConvertibleBetween(s2, pivot + 1, end + 1)
    ensures Fractions(s2) <= Fractions(s1)
    ensures s2[pivot] == s1[pivot] && Parting(s2, start, pivot, end)
  {
    MovedFurther(s0, s1, s2, start, end + 1, start, pivot);
    ConvertibleStays(s0, s2, start, end + 1);
    ConvertibleInside(s2, start, end + 1, pivot + 1, end + 1);
    LeftParting(s1, s2, start, pivot, end);
  }

  lemma LeftParting(s1: seq<real>, s2: seq<real>, start: nat, pivot: nat, end: nat)
    requires start <= pivot <= end < |s1| && Whole(s1[pivot]) && ConvertibleBetween(s1, start, pivot)
    requires Moved(s1, s2, start, pivot) && Parting(s1, start, pivot, end)
    ensures |s2| == |s1| && s2[pivot] == s1[pivot] && Parting(s2, start, pivot, end)
  {
    SideStays(s1, s2, start, pivot, s1[pivot]);
  }

  /** Sorting the right part completes the slice. */
  lemma RightDone(s0: seq<real>, s2: seq<real>, s3: seq<real>, start: nat, pivot: nat, end: nat)
    requires start <= pivot <= end < |s2| && Whole(s2[pivot])
    requires ConvertibleBetween(s0, start, end + 1) && ConvertibleBetween(s2, pivot + 1, end + 1)
    requires Moved(s0, s2, start, end + 1) && Moved(s2, s3, pivot + 1, end + 1)
    requires SortedBetween(s2, start, pivot) && SortedBetween(s3, pivot + 1, end + 1)
    requires Parting(s2, start, pivot, end)
    ensures Moved(s0, s3, start, end + 1) && SortedBetween(s3, start, end + 1) && Fractions(s3) <= Fractions(s2)
  {
    MovedFurther(s0, s2, s3, start, end + 1, pivot + 1, end + 1);
    RightSorted(s2, s3, start, pivot, end);
  }

  lemma RightSorted(s2: seq<real>, s3: seq<real>, start: nat, pivot: nat, end: nat)
    requires start <= pivot <= end < |s2| && Whole(s2[pivot]) && ConvertibleBetween(s2, pivot + 1, end + 1)
    requires Moved(s2, s3, pivot + 1, end + 1) && Parting(s2, start, pivot, end)
    requires SortedBetween(s2, start, pivot) && SortedBetween(s3, pivot + 1, end + 1)
    ensures SortedBetween(s3, start, end + 1)
  {
    PrefixStays(s2, s3, pivot + 1, end + 1);
    SideStays(s2, s3, pivot + 1, end + 1, s2[pivot]);
    assert s3[pivot] == s3[..pivot + 1][pivot] == s2[pivot];
    SortedAround(s2, s3, start, pivot, end);
  }

  lemma SortedAround(s2: seq<real>, s3: seq<real>, start: nat, pivot: nat, end: nat)
    requires start <= pivot <= end < |s3| == |s2| && s3[..pivot + 1] == s2[..pivot + 1]
    requires SortedBetween(s2, start, pivot) && SortedBetween(s3, pivot + 1, end + 1)
    requires forall i | start <= i < pivot :: s2[i] <= s2[pivot]
    requires forall i | pivot < i <= end :: s3[i] >= s3[pivot]
    ensures SortedBetween(s3, start, end + 1)
  {
    forall i, j | start <= i < j <= end
      ensures s3[i] <= s3[j]
    {
      assert i <= pivot ==> s3[i] == s3[..pivot + 1][i] == s2[i];
      assert j <= pivot ==> s3[j] == s3[..pivot + 1][j] == s2[j];
      assert s3[pivot] == s3[..pivot + 1][pivot] == s2[pivot];
    }
  }

  /** With a fraction anywhere in a slice of two or more, some answer of rand is unlucky. */
  lemma UnluckyAnswer(s: seq<real>, start: nat, end: nat, k: nat, rand: nat)
    requires start < end < |s| && start <= k <= end && !Whole(s[k])
    requires rand == if k < end then k - start else 0
    ensures Unlucky(s, start, end, Pick(start, end, rand))
  {
  }

  /** Only whole elements are safe: with a fraction anywhere in a slice of two or more, some answer of rand
      makes quicksort lose one, and the result is no permutation. */
  method SortUnluckily(a: array<real>, start: nat, end: nat, k: nat)
    requires start < end < a.Length && ConvertibleBetween(a[..], start, end + 1)
    requires start <= k <= end && !Whole(a[k])
    modifies a
    ensures SortedBetween(a[..], start, end + 1)
    ensures !Rearranged(old(a[..]), a[..], start, end + 1)
  {
    ghost var s := a[..];
    var rand := if k < end then k - start else 0;
    UnluckyAnswer(s, start, end, k, rand);
    SortFrom(a, start, end, rand);
    RearrangedIffNothingLost(s, a[..], start, end + 1);
  }
}
