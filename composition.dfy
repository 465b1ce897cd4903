/**
 * How `generate_password_with_counts` decides how many characters each class
 * contributes: the explicit counts, their sum, the unspecified classes and the
 * share of the remaining length each of those receives. Everything here is a
 * pure reference definition; the loop that computes the allocation is
 * `PasswordGenerator.Distribute`.
 */
module Composition {
  import opened Wrappers
  import opened CharClasses

  /** `specified_counts`: an absent count becomes 0, so an explicit 0 and an empty field are the same. */
  function Explicit(counts: PerClass<Option<int>>): (spec: PerClass<int>)
    ensures forall c :: counts.Get(c) == None ==> spec.Get(c) == 0
    ensures forall c :: counts.Get(c).Some? ==> spec.Get(c) == counts.Get(c).value
  {
    PerClass(counts.numbers.GetOr(0), counts.letters.GetOr(0), counts.symbols.GetOr(0))
  }

  /** `total_specified`: the counts of all three classes, whether the class is enabled or not. */
  function Total(spec: PerClass<int>): int {
    spec.numbers + spec.letters + spec.symbols
  }

  /** `remaining_length`: what is left of the length once the explicit counts are taken. */
  function Remaining(length: int, spec: PerClass<int>): int {
    length - Total(spec)
  }

  /** A class takes part in the distribution when it is enabled and its count is 0. */
  predicate IsUnspecified(used: PerClass<bool>, spec: PerClass<int>, c: CharClass) {
    used.Get(c) && spec.Get(c) == 0
  }

  /** `unspecified_types`: the unspecified classes, in the order numbers, letters, symbols. */
  function Unspecified(used: PerClass<bool>, spec: PerClass<int>): (u: seq<CharClass>)
    ensures forall c :: c in u <==> IsUnspecified(used, spec, c)
    ensures forall i, j :: 0 <= i < j < |u| ==> Rank(u[i]) < Rank(u[j])
  {
    (if IsUnspecified(used, spec, Numbers) then [Numbers] else [])
    + (if IsUnspecified(used, spec, Letters) then [Letters] else [])
    + (if IsUnspecified(used, spec, Symbols) then [Symbols] else [])
  }

  /** The guard of the distribution: some class is unspecified and some length is left. */
  predicate Distributes(length: int, used: PerClass<bool>, spec: PerClass<int>) {
    |Unspecified(used, spec)| > 0 && Remaining(length, spec) > 0
  }

  /** The share of the `i`-th of `k` unspecified classes: `remaining // k`, plus one for the first `remaining % k`. */
  function Share(remaining: int, k: nat, i: int): int
    requires k > 0
  {
    remaining / k + (if i < remaining % k then 1 else 0)
  }

  /** Position of `c` in `u`. */
  function IndexOf(u: seq<CharClass>, c: CharClass): (i: nat)
    requires c in u
    ensures i < |u| && u[i] == c
  {
    if u[0] == c then 0 else 1 + IndexOf(u[1..], c)
  }

  /** In a list without repetitions, the position of the element at `i` is `i`. */
  lemma {:induction false} IndexOfOrdered(u: seq<CharClass>, i: nat)
    requires i < |u|
    requires forall a, b :: 0 <= a < b < |u| ==> Rank(u[a]) < Rank(u[b])
    ensures IndexOf(u, u[i]) == i
  {
    if u[0] != u[i] {
      assert u[1..][i - 1] == u[i];
      IndexOfOrdered(u[1..], i - 1);
    }
  }

  /**
   * The final count of each class: an unspecified class gets its share of the
   * remaining length when the distribution runs; every other count stays as it was.
   */
  function Allocation(length: int, used: PerClass<bool>, spec: PerClass<int>): PerClass<int> {
    if Distributes(length, used, spec) then
      var u := Unspecified(used, spec);
      var remaining := Remaining(length, spec);
      PerClass(
        if Numbers in u then Share(remaining, |u|, IndexOf(u, Numbers)) else spec.numbers,
        if Letters in u then Share(remaining, |u|, IndexOf(u, Letters)) else spec.letters,
        if Symbols in u then Share(remaining, |u|, IndexOf(u, Symbols)) else spec.symbols)
    else
      spec
  }

  /** The `i`-th unspecified class receives the `i`-th share. */
  lemma AllocationShares(length: int, used: PerClass<bool>, spec: PerClass<int>)
    requires Distributes(length, used, spec)
    ensures var u := Unspecified(used, spec);
      forall i :: 0 <= i < |u| ==>
        Allocation(length, used, spec).Get(u[i]) == Share(Remaining(length, spec), |u|, i)
  {
    var u := Unspecified(used, spec);
    forall i | 0 <= i < |u|
      ensures Allocation(length, used, spec).Get(u[i]) == Share(Remaining(length, spec), |u|, i)
    {
      IndexOfOrdered(u, i);
    }
  }

  /**
   * A class keeps its count unless it is unspecified and the distribution runs:
   * a nonzero explicit count and a disabled class's count are never touched.
   */
  lemma AllocationKeepsCounts(length: int, used: PerClass<bool>, spec: PerClass<int>, c: CharClass)
    requires !IsUnspecified(used, spec, c) || !Distributes(length, used, spec)
    ensures Allocation(length, used, spec).Get(c) == spec.Get(c)
  {
  }

  /**
   * Shares differ by at most one and never grow along the order numbers, letters,
   * symbols: the extra slots go to the earliest unspecified classes.
   */
  lemma SharesBalanced(length: int, used: PerClass<bool>, spec: PerClass<int>)
    requires Distributes(length, used, spec)
    ensures var u := Unspecified(used, spec);
      var alloc := Allocation(length, used, spec);
      var remaining := Remaining(length, spec);
      (forall i :: 0 <= i < |u| ==>
        (alloc.Get(u[i]) == remaining / |u| + 1 <==> i < remaining % |u|) &&
        (alloc.Get(u[i]) == remaining / |u| <==> i >= remaining % |u|)) &&
      (forall i, j :: 0 <= i < j < |u| ==> alloc.Get(u[j]) <= alloc.Get(u[i]) <= alloc.Get(u[j]) + 1)
  {
    AllocationShares(length, used, spec);
  }

  /** Sum of the values of `t` at the classes listed in `cs`. */
  function SumOver(t: PerClass<int>, cs: seq<CharClass>): int {
    if cs == [] then 0 else t.Get(cs[0]) + SumOver(t, cs[1..])
  }

  lemma {:induction false} SumOverAppend(t: PerClass<int>, a: seq<CharClass>, b: seq<CharClass>)
    ensures SumOver(t, a + b) == SumOver(t, a) + SumOver(t, b)
  {
    if a == [] {
      assert a + b == b;
    } else {
      assert (a + b)[1..] == a[1..] + b;
      SumOverAppend(t, a[1..], b);
    }
  }

  /** The sum over the unspecified classes, class by class. */
  lemma SumOverUnspecified(t: PerClass<int>, used: PerClass<bool>, spec: PerClass<int>)
    ensures SumOver(t, Unspecified(used, spec)) ==
      (if IsUnspecified(used, spec, Numbers) then t.numbers else 0) +
      (if IsUnspecified(used, spec, Letters) then t.letters else 0) +
      (if IsUnspecified(used, spec, Symbols) then t.symbols else 0)
  {
    var a := if IsUnspecified(used, spec, Numbers) then [Numbers] else [];
    var b := if IsUnspecified(used, spec, Letters) then [Letters] else [];
    var c := if IsUnspecified(used, spec, Symbols) then [Symbols] else [];
    SumOverAppend(t, a + b, c);
    SumOverAppend(t, a, b);
  }

  /** Sum of the shares at positions `lo` up to `hi` (exclusive). */
  function SumShares(remaining: int, k: nat, lo: nat, hi: nat): int
    requires k > 0
    decreases hi - lo
  {
    if lo >= hi then 0 else Share(remaining, k, lo) + SumShares(remaining, k, lo + 1, hi)
  }

  lemma {:induction false} SumSharesClosed(remaining: int, k: nat, lo: nat)
    requires 0 < k && lo <= k
    ensures SumShares(remaining, k, lo, k) ==
      (k - lo) * (remaining / k) + (if lo < remaining % k then remaining % k - lo else 0)
    decreases k - lo
  {
    if lo < k {
      SumSharesClosed(remaining, k, lo + 1);
      var q := remaining / k;
      assert (k - lo) * q == (k - (lo + 1)) * q + q;
    }
  }

  /** The `k` shares of `remaining` add up to `remaining`. */
  lemma SumSharesTotal(remaining: int, k: nat)
    requires k > 0
    ensures SumShares(remaining, k, 0, k) == remaining
  {
    SumSharesClosed(remaining, k, 0);
  }

  lemma {:induction false} SumOverShares(t: PerClass<int>, cs: seq<CharClass>, remaining: int, k: nat, lo: nat)
    requires k > 0
    requires forall i :: 0 <= i < |cs| ==> t.Get(cs[i]) == Share(remaining, k, lo + i)
    ensures SumOver(t, cs) == SumShares(remaining, k, lo, lo + |cs|)
  {
    if cs != [] {
      SumOverShares(t, cs[1..], remaining, k, lo + 1);
    }
  }

  /** The shares of the unspecified classes add up to exactly the remaining length. */
  lemma SharesSumToRemaining(length: int, used: PerClass<bool>, spec: PerClass<int>)
    requires Distributes(length, used, spec)
    ensures SumOver(Allocation(length, used, spec), Unspecified(used, spec)) == Remaining(length, spec)
  {
    var u := Unspecified(used, spec);
    var remaining := Remaining(length, spec);
    var alloc := Allocation(length, used, spec);
    AllocationShares(length, used, spec);
    assert forall i :: 0 <= i < |u| ==> alloc.Get(u[i]) == Share(remaining, |u|, 0 + i);
    SumOverShares(alloc, u, remaining, |u|, 0);
    SumSharesTotal(remaining, |u|);
  }

  /** When the distribution runs, the counts of all three classes add up to the requested length. */
  lemma AllocatedTotal(length: int, used: PerClass<bool>, spec: PerClass<int>)
    requires Distributes(length, used, spec)
    ensures Total(Allocation(length, used, spec)) == length
  {
    var alloc := Allocation(length, used, spec);
    SharesSumToRemaining(length, used, spec);
    SumOverUnspecified(alloc, used, spec);
  }

  /** An explicit count of 0 and an empty field give the same total and the same allocation. */
  lemma ZeroCountSameAsEmpty(length: int, used: PerClass<bool>, counts: PerClass<Option<int>>, c: CharClass)
    ensures Total(Explicit(counts.Put(c, Some(0)))) == Total(Explicit(counts.Put(c, None)))
    ensures Allocation(length, used, Explicit(counts.Put(c, Some(0)))) ==
            Allocation(length, used, Explicit(counts.Put(c, None)))
  {
    assert Explicit(counts.Put(c, Some(0))) == Explicit(counts.Put(c, None));
  }

  /** `range(n)` yields nothing for a negative `n`: the number of characters a count draws. */
  function Clamp(n: int): nat {
    if n < 0 then 0 else n
  }

  /** Length of the password: the drawn characters of the enabled classes. */
  function OutputLength(used: PerClass<bool>, alloc: PerClass<int>): nat {
    (if used.numbers then Clamp(alloc.numbers) else 0) +
    (if used.letters then Clamp(alloc.letters) else 0) +
    (if used.symbols then Clamp(alloc.symbols) else 0)
  }

  /** The counts given to disabled classes: they use up length but draw nothing. */
  function DisabledTotal(used: PerClass<bool>, spec: PerClass<int>): int {
    (if used.numbers then 0 else spec.numbers) +
    (if used.letters then 0 else spec.letters) +
    (if used.symbols then 0 else spec.symbols)
  }

  /** With some length left over, every share is non-negative. */
  lemma AllocationNonNegative(length: int, used: PerClass<bool>, spec: PerClass<int>, c: CharClass)
    requires Distributes(length, used, spec)
    requires IsUnspecified(used, spec, c)
    ensures Allocation(length, used, spec).Get(c) >= 0
  {
    var u := Unspecified(used, spec);
    var remaining := Remaining(length, spec);
    assert remaining / |u| >= 0;
  }

  /**
   * Where the requested length goes when no count is negative: the password is
   * the length minus the disabled classes' counts, minus the leftover that is
   * dropped when no enabled class is unspecified.
   */
  lemma OutputLengthAccount(length: int, used: PerClass<bool>, spec: PerClass<int>)
    requires forall c :: spec.Get(c) >= 0
    requires Total(spec) <= length
    ensures OutputLength(used, Allocation(length, used, spec)) ==
      length - DisabledTotal(used, spec) - (if Distributes(length, used, spec) then 0 else Remaining(length, spec))
  {
    var alloc := Allocation(length, used, spec);
    if Distributes(length, used, spec) {
      AllocatedTotal(length, used, spec);
      forall c ensures alloc.Get(c) >= 0 && (!used.Get(c) ==> alloc.Get(c) == spec.Get(c)) {
        if IsUnspecified(used, spec, c) {
          AllocationNonNegative(length, used, spec, c);
        } else {
          AllocationKeepsCounts(length, used, spec, c);
        }
      }
      assert alloc.Get(Numbers) >= 0 && alloc.Get(Letters) >= 0 && alloc.Get(Symbols) >= 0;
    } else {
      assert spec.Get(Numbers) >= 0 && spec.Get(Letters) >= 0 && spec.Get(Symbols) >= 0;
    }
  }

  /**
   * The password has exactly the requested length when no count is negative,
   * no disabled class has a count, and either some enabled class is unspecified
   * or the explicit counts already fill the length.
   */
  lemma FullLength(length: int, used: PerClass<bool>, counts: PerClass<Option<int>>)
    requires forall c :: counts.Get(c).Some? ==> counts.Get(c).value >= 0
    requires forall c :: !used.Get(c) ==> Explicit(counts).Get(c) == 0
    requires Total(Explicit(counts)) <= length
    requires |Unspecified(used, Explicit(counts))| > 0 || Total(Explicit(counts)) == length
    ensures OutputLength(used, Allocation(length, used, Explicit(counts))) == length
  {
    var spec := Explicit(counts);
    assert DisabledTotal(used, spec) == 0 by {
      assert !used.numbers ==> spec.Get(Numbers) == 0;
      assert !used.letters ==> spec.Get(Letters) == 0;
      assert !used.symbols ==> spec.Get(Symbols) == 0;
    }
    OutputLengthAccount(length, used, spec);
  }

  /**
   * When every enabled class has a nonzero explicit count, the leftover length
   * is dropped: the password is shorter than requested by exactly the leftover.
   */
  lemma LeftoverDropped(length: int, used: PerClass<bool>, spec: PerClass<int>)
    requires forall c :: spec.Get(c) >= 0
    requires DisabledTotal(used, spec) == 0
    requires Unspecified(used, spec) == [] && Remaining(length, spec) > 0
    ensures OutputLength(used, Allocation(length, used, spec)) == length - Remaining(length, spec) < length
  {
    OutputLengthAccount(length, used, spec);
  }

  /** A negative count is not rejected: it raises the remaining length, and the password comes out longer. */
  lemma NegativeCountLengthens()
    ensures var used := PerClass(true, true, false);
      var spec := Explicit(PerClass(Some(-2), None, None));
      Total(spec) <= 4 &&
      Allocation(4, used, spec) == PerClass(-2, 6, 0) &&
      OutputLength(used, Allocation(4, used, spec)) == 6
  {
    var used := PerClass(true, true, false);
    var spec := Explicit(PerClass(Some(-2), None, None));
    assert Unspecified(used, spec) == [Letters];
  }

  /** Length 7 with all three classes and no counts: the classes get 3, 2 and 2. */
  lemma EvenSplitExample()
    ensures Allocation(7, PerClass(true, true, true), Explicit(PerClass(None, None, None))) == PerClass(3, 2, 2)
  {
    var used := PerClass(true, true, true);
    var spec := Explicit(PerClass(None, None, None));
    var u := Unspecified(used, spec);
    assert u == [Numbers, Letters, Symbols];
    assert Remaining(7, spec) == 7;
    assert IndexOf(u, Numbers) == 0 && IndexOf(u, Letters) == 1 && IndexOf(u, Symbols) == 2;
    assert Share(7, 3, 0) == 3 && Share(7, 3, 1) == 2 && Share(7, 3, 2) == 2;
  }

  /** Length 10, digits and letters, 3 digits requested: 3 digits and 7 letters. */
  lemma ExplicitCountExample()
    ensures Allocation(10, PerClass(true, true, false), Explicit(PerClass(Some(3), None, None))) == PerClass(3, 7, 0)
  {
    var used := PerClass(true, true, false);
    var spec := Explicit(PerClass(Some(3), None, None));
    assert Unspecified(used, spec) == [Letters];
  }
}
