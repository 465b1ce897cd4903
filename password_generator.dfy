/**
 * The two entry points of the password generator: `generate_password`, which
 * checks the form's inputs, and `generate_password_with_counts`, which
 * allocates the length to the character classes, draws the characters and
 * shuffles them. Random choices are arbitrary choices here: a drawn character
 * is some element of its alphabet and the shuffle is some permutation.
 */
module PasswordGenerator {
  import opened Wrappers
  import opened CharClasses
  import opened Composition

  /** Why no password is produced; the source shows each as a message box and returns "". */
  datatype Rejection = InvalidLength | NoCharacterClass | CountsExceedLength

  datatype Outcome = Generated(password: string) | Rejected(reason: Rejection) {

    /** The string the source returns: the password, or "" after an error message. */
    function Text(): string {
      if Generated? then password else ""
    }
  }

  /**
   * The form as `generate_password` reads it. `length` is None when the length
   * text is not an integer; a count is None when its field is empty.
   */
  datatype Request = Request(length: Option<int>, used: PerClass<bool>, counts: PerClass<Option<int>>)

  /** Some character class is enabled. */
  predicate AnyEnabled(used: PerClass<bool>) {
    used.numbers || used.letters || used.symbols
  }

  /** A character belongs to the alphabet of an enabled class. */
  predicate InEnabledClass(used: PerClass<bool>, ch: char) {
    (used.numbers && ch in Alphabet(Numbers)) ||
    (used.letters && ch in Alphabet(Letters)) ||
    (used.symbols && ch in Alphabet(Symbols))
  }

  /**
   * `p` is a password composed as `alloc` says: every character comes from an
   * enabled class, each enabled class contributes exactly its (non-negative
   * part of its) count, and disabled classes contribute nothing.
   */
  ghost predicate Composed(p: string, used: PerClass<bool>, alloc: PerClass<int>) {
    |p| == OutputLength(used, alloc) &&
    (forall i :: 0 <= i < |p| ==> InEnabledClass(used, p[i])) &&
    (forall c :: ClassCount(p, c) == if used.Get(c) then Clamp(alloc.Get(c)) else 0)
  }

  /**
   * The early-return checks of `generate_password`: the length first, then the
   * classes. On success the checked length is returned.
   */
  function CheckRequest(length: Option<int>, used: PerClass<bool>): (r: Result<int, Rejection>)
    ensures r == Err(InvalidLength) <==> length.None? || length.value <= 0
    ensures r == Err(NoCharacterClass) <==> length.Some? && length.value > 0 && !AnyEnabled(used)
    ensures r.Ok? <==> length.Some? && length.value > 0 && AnyEnabled(used)
    ensures r.Ok? ==> r.value == length.value
    ensures r.Err? ==> r.error != CountsExceedLength
  {
    if length.None? || length.value <= 0 then Err(InvalidLength)
    else if !AnyEnabled(used) then Err(NoCharacterClass)
    else Ok(length.value)
  }

  /** Counts that give each unspecified class its share and leave the others alone are the allocation. */
  lemma SharesDetermineAllocation(alloc: PerClass<int>, length: int, used: PerClass<bool>, spec: PerClass<int>)
    requires Distributes(length, used, spec)
    requires var u := Unspecified(used, spec);
      forall j :: 0 <= j < |u| ==> alloc.Get(u[j]) == Share(Remaining(length, spec), |u|, j)
    requires forall c :: c !in Unspecified(used, spec) ==> alloc.Get(c) == spec.Get(c)
    ensures alloc == Allocation(length, used, spec)
  {
    var u := Unspecified(used, spec);
    var expected := Allocation(length, used, spec);
    AllocationShares(length, used, spec);
    forall c ensures alloc.Get(c) == expected.Get(c) {
      if c in u {
        var k := IndexOf(u, c);
        assert alloc.Get(u[k]) == expected.Get(u[k]);
      }
    }
    assert alloc.numbers == expected.numbers && alloc.letters == expected.letters && alloc.symbols == expected.symbols;
  }

  /**
   * After `i` rounds of the distribution loop: the first `i` unspecified classes
   * hold their shares and every other class still holds its explicit count.
   */
  ghost predicate SharedUpTo(alloc: PerClass<int>, spec: PerClass<int>, u: seq<CharClass>, remaining: int, i: nat)
    requires 0 < |u| && i <= |u|
  {
    (forall j :: 0 <= j < i ==> alloc.Get(u[j]) == Share(remaining, |u|, j)) &&
    (forall c :: c !in u[..i] ==> alloc.Get(c) == spec.Get(c))
  }

  /** One round of the loop: the `i`-th class gets the `i`-th share. */
  lemma SharedStep(alloc: PerClass<int>, spec: PerClass<int>, u: seq<CharClass>, remaining: int, i: nat)
    requires 0 < |u| && i < |u|
    requires forall a, b :: 0 <= a < b < |u| ==> Rank(u[a]) < Rank(u[b])
    requires SharedUpTo(alloc, spec, u, remaining, i)
    ensures SharedUpTo(alloc.Put(u[i], Share(remaining, |u|, i)), spec, u, remaining, i + 1)
  {
    assert u[..i + 1] == u[..i] + [u[i]];
  }

  /** The loop that hands the remaining length out to the unspecified classes. */
  method Distribute(length: int, used: PerClass<bool>, spec: PerClass<int>) returns (alloc: PerClass<int>)
    ensures alloc == Allocation(length, used, spec)
  {
    alloc := spec;
    var remaining := length - Total(spec);
    var unspecified := Unspecified(used, spec);
    if |unspecified| > 0 && remaining > 0 {
      var addPerType := remaining / |unspecified|;
      var extra := remaining % |unspecified|;
      for i := 0 to |unspecified|
        invariant SharedUpTo(alloc, spec, unspecified, remaining, i)
      {
        SharedStep(alloc, spec, unspecified, remaining, i);
        alloc := alloc.Put(unspecified[i], addPerType + (if i < extra then 1 else 0));
      }
      assert unspecified[..|unspecified|] == unspecified;
      SharesDetermineAllocation(alloc, length, used, spec);
    }
  }

  /** `n` characters drawn one at a time from the alphabet of `c`; a negative `n` draws none. */
  method Draw(c: CharClass, n: int) returns (drawn: string)
    ensures |drawn| == Clamp(n)
    ensures forall i :: 0 <= i < |drawn| ==> drawn[i] in Alphabet(c)
  {
    drawn := [];
    var alphabet := Alphabet(c);
    assert alphabet[0] in alphabet by {
      AlphabetSizes();
    }
    var k := 0;
    while k < n
      invariant |drawn| == k <= Clamp(n)
      invariant forall i :: 0 <= i < |drawn| ==> drawn[i] in alphabet
    {
      var ch :| ch in alphabet;
      drawn := drawn + [ch];
      k := k + 1;
    }
  }

  /**
   * `s` holds the draws of the enabled classes ranked below `k`: every character
   * is from an enabled class and each of those classes has its full count.
   */
  ghost predicate CollectedUpTo(s: string, used: PerClass<bool>, alloc: PerClass<int>, k: nat) {
    (forall i :: 0 <= i < |s| ==> InEnabledClass(used, s[i])) &&
    (forall d :: ClassCount(s, d) == if used.Get(d) && Rank(d) < k then Clamp(alloc.Get(d)) else 0)
  }

  /** Appending the draw of the class ranked `k` extends the collection to rank `k + 1`. */
  lemma AppendDrawn(s: string, drawn: string, used: PerClass<bool>, alloc: PerClass<int>, c: CharClass)
    requires CollectedUpTo(s, used, alloc, Rank(c))
    requires used.Get(c) && |drawn| == Clamp(alloc.Get(c))
    requires forall i :: 0 <= i < |drawn| ==> drawn[i] in Alphabet(c)
    ensures CollectedUpTo(s + drawn, used, alloc, Rank(c) + 1)
  {
    forall d ensures ClassCount(s + drawn, d) == ClassCount(s, d) + (if c == d then |drawn| else 0) {
      ClassCountAppend(s, drawn, d);
      ClassCountSingleClass(drawn, c, d);
    }
    forall i | 0 <= i < |s + drawn| ensures InEnabledClass(used, (s + drawn)[i]) {
      if i >= |s| {
        assert (s + drawn)[i] == drawn[i - |s|];
      }
    }
  }

  /** A disabled class adds nothing, and the collection moves on to the next rank. */
  lemma SkipDisabled(s: string, used: PerClass<bool>, alloc: PerClass<int>, c: CharClass)
    requires CollectedUpTo(s, used, alloc, Rank(c))
    requires !used.Get(c)
    ensures CollectedUpTo(s, used, alloc, Rank(c) + 1)
  {
  }

  /** Every character of the enabled classes counts for exactly one class. */
  lemma {:induction false} ClassCountsCover(s: string, used: PerClass<bool>)
    requires forall i :: 0 <= i < |s| ==> InEnabledClass(used, s[i])
    ensures |s| == ClassCount(s, Numbers) + ClassCount(s, Letters) + ClassCount(s, Symbols)
  {
    if s != [] {
      var ch := s[0];
      AlphabetMembers(Numbers, ch);
      AlphabetMembers(Letters, ch);
      AlphabetMembers(Symbols, ch);
      ClassCountsCover(s[1..], used);
    }
  }

  /** Once all three classes are collected, the string is composed as `alloc` says. */
  lemma CollectedAll(s: string, used: PerClass<bool>, alloc: PerClass<int>)
    requires CollectedUpTo(s, used, alloc, 3)
    ensures Composed(s, used, alloc)
  {
    ClassCountsCover(s, used);
    assert ClassCount(s, Numbers) == if used.numbers then Clamp(alloc.numbers) else 0;
    assert ClassCount(s, Letters) == if used.letters then Clamp(alloc.letters) else 0;
    assert ClassCount(s, Symbols) == if used.symbols then Clamp(alloc.symbols) else 0;
  }

  /** The list of characters before shuffling: the enabled classes' draws, in class order. */
  method Collect(used: PerClass<bool>, alloc: PerClass<int>) returns (characters: string)
    ensures Composed(characters, used, alloc)
  {
    characters := [];
    if used.numbers {
      var drawn := Draw(Numbers, alloc.numbers);
      AppendDrawn(characters, drawn, used, alloc, Numbers);
      characters := characters + drawn;
    } else {
      SkipDisabled(characters, used, alloc, Numbers);
    }
    if used.letters {
      var drawn := Draw(Letters, alloc.letters);
      AppendDrawn(characters, drawn, used, alloc, Letters);
      characters := characters + drawn;
    } else {
      SkipDisabled(characters, used, alloc, Letters);
    }
    if used.symbols {
      var drawn := Draw(Symbols, alloc.symbols);
      AppendDrawn(characters, drawn, used, alloc, Symbols);
      characters := characters + drawn;
    } else {
      SkipDisabled(characters, used, alloc, Symbols);
    }
    CollectedAll(characters, used, alloc);
  }

  /** In-place Fisher-Yates shuffle, as `random.shuffle` does it, with an arbitrary index at each step. */
  method Shuffle(a: array<char>)
    modifies a
    ensures multiset(a[..]) == old(multiset(a[..]))
  {
    var i := a.Length - 1;
    while i > 0
      invariant i < a.Length
      invariant multiset(a[..]) == old(multiset(a[..]))
    {
      var j :| 0 <= j <= i;
      a[i], a[j] := a[j], a[i];
      i := i - 1;
    }
  }

  /** A reordering keeps everything `Composed` says. */
  lemma ComposedPermutation(p: string, q: string, used: PerClass<bool>, alloc: PerClass<int>)
    requires Composed(p, used, alloc)
    requires multiset(p) == multiset(q)
    ensures Composed(q, used, alloc)
  {
    forall c ensures ClassCount(q, c) == ClassCount(p, c) {
      ClassCountPermutation(p, q, c);
    }
    forall i | 0 <= i < |q| ensures InEnabledClass(used, q[i]) {
      assert q[i] in multiset(p);
    }
    assert |q| == |multiset(q)|;
  }

  /**
   * `generate_password_with_counts`: rejected exactly when the counts of all
   * classes, enabled or not, exceed the length; otherwise a password composed
   * as `Allocation` says.
   */
  method GeneratePasswordWithCounts(length: int, used: PerClass<bool>, counts: PerClass<Option<int>>)
    returns (o: Outcome)
    ensures o.Rejected? <==> Total(Explicit(counts)) > length
    ensures o.Rejected? ==> o.reason == CountsExceedLength
    ensures o.Generated? ==> Composed(o.password, used, Allocation(length, used, Explicit(counts)))
  {
    var specified := Explicit(counts);
    var totalSpecified := Total(specified);
    if totalSpecified > length {
      return Rejected(CountsExceedLength);
    }
    var finalCounts := Distribute(length, used, specified);
    var characters := Collect(used, finalCounts);
    var buffer := new char[|characters|](i requires 0 <= i < |characters| => characters[i]);
    assert buffer[..] == characters;
    Shuffle(buffer);
    ComposedPermutation(characters, buffer[..], used, finalCounts);
    o := Generated(buffer[..]);
  }

  /**
   * `generate_password`: the length check, then the class check, then the
   * composition with the parsed counts.
   */
  method GeneratePassword(request: Request) returns (o: Outcome)
    ensures o == Rejected(InvalidLength) <==> request.length.None? || request.length.value <= 0
    ensures o == Rejected(NoCharacterClass) <==>
      request.length.Some? && request.length.value > 0 && !AnyEnabled(request.used)
    ensures o == Rejected(CountsExceedLength) <==>
      request.length.Some? && request.length.value > 0 && AnyEnabled(request.used) &&
      Total(Explicit(request.counts)) > request.length.value
    ensures o.Generated? ==>
      request.length.Some? && Composed(o.password, request.used,
        Allocation(request.length.value, request.used, Explicit(request.counts)))
    ensures o.Generated? <==>
      request.length.Some? && request.length.value > 0 && AnyEnabled(request.used) &&
      Total(Explicit(request.counts)) <= request.length.value
    ensures o.Text() == "" <==>
      o.Rejected? ||
      (request.length.Some? &&
       OutputLength(request.used, Allocation(request.length.value, request.used, Explicit(request.counts))) == 0)
  {
    var checked := CheckRequest(request.length, request.used);
    match checked {
      case Err(reason) =>
        o := Rejected(reason);
      case Ok(length) =>
        o := GeneratePasswordWithCounts(length, request.used, request.counts);
    }
  }
}
