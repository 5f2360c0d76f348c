/** What showinfo makes of the array: the listing, the number of non-primes and the number of unnecessary
    cross-outs. */
module SieveReport {
  import opened Primes
  import opened SieveMachine
  import opened SieveExactness
  import opened SieveAccounting

  function PrimesUpTo(n: nat): seq<int> {
    if n == 0 then [] else PrimesUpTo(n - 1) + if Prime(n) then [n] else []
  }

  function NonZero(values: seq<int>): seq<int> {
    if values == [] then []
    else (if values[0] != 0 then [values[0]] else []) + NonZero(values[1..])
  }

  /** The part of the array that showinfo walks, after the Sundaram rewriting. */
  function Printable(c: Config, number: seq<int>): seq<int>
    requires c.Valid() && |number| == c.Cells()
  {
    if c.kind.Eratosthenes? then number else Rewritten(number)[1..]
  }

  lemma {:induction false} NonZeroAppend(values: seq<int>, v: int)
    ensures NonZero(values + [v]) == NonZero(values) + if v != 0 then [v] else []
  {
    if values == [] {
      assert values + [v] == [v] && [v][1..] == [];
    } else {
      var rest := values[1..];
      NonZeroAppend(rest, v);
      var longer := values + [v];
      assert longer[0] == values[0] && longer[1..] == rest + [v];
      NonZeroHead(longer);
      NonZeroHead(values);
    }
  }

  lemma NonZeroHead(values: seq<int>)
    requires values != []
    ensures NonZero(values) == (if values[0] != 0 then [values[0]] else []) + NonZero(values[1..])
  {
  }

  lemma NonZeroSnoc(values: seq<int>, i: nat)
    requires i < |values|
    ensures NonZero(values[..i + 1]) == NonZero(values[..i]) + if values[i] != 0 then [values[i]] else []
  {
    assert values[..i + 1] == values[..i] + [values[i]];
    NonZeroAppend(values[..i], values[i]);
  }

  lemma {:induction false} ZeroOrListed(values: seq<int>)
    ensures ZeroCells(values) + |NonZero(values)| == |values|
  {
    if values != [] {
      ZeroOrListed(values[1..]);
    }
  }

  /** An exact array prints as the increasing list of all primes up to the bound. */
  lemma ExactListing(c: Config, number: seq<int>)
    requires c.Valid() && |number| == c.Cells() && Exact(c, number)
    ensures NonZero(Printable(c, number)) == PrimesUpTo(c.bound)
  {
    var printed := Printable(c, number);
    ListedPrefix(c, number, |printed|);
    assert printed[..|printed|] == printed;
  }

  lemma {:induction false} ListedPrefix(c: Config, number: seq<int>, n: nat)
    requires c.Valid() && |number| == c.Cells() && Exact(c, number) && n <= |Printable(c, number)|
    ensures NonZero(Printable(c, number)[..n]) == PrimesUpTo(if c.kind.Eratosthenes? then n + 1 else n)
  {
    if n == 0 {
      assert PrimesUpTo(1) == PrimesUpTo(0);
    } else {
      ListedPrefix(c, number, n - 1);
      var printed := Printable(c, number);
      NonZeroSnoc(printed, n - 1);
      var k := if c.kind.Eratosthenes? then n + 1 else n;
      assert printed[n - 1] == Listed(c, number, k);
    }
  }

  /** The printed number of non-primes: of the numbers up to the bound, from 2 or from 1 on, those not
      listed. */
  function NonPrimes(c: Config, number: seq<int>): int
    requires c.Valid() && |number| == c.Cells()
  {
    (if c.kind.Eratosthenes? then c.bound - 1 else c.bound) - |NonZero(Printable(c, number))|
  }

  /** The printed number of unnecessary cross-outs. */
  function Unnecessary(c: Config, s: State): int
    requires Shape(c, s)
  {
    Total(s.counter) - NonPrimes(c, s.number)
  }
}
