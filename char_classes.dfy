/**
 * The three character classes of the password generator and the Python
 * `string` constants each one draws from: `string.digits`,
 * `string.ascii_letters` and `string.punctuation`.
 */
module CharClasses {

  /** A character class; the declaration order is the order of the source's dictionaries. */
  datatype CharClass = Numbers | Letters | Symbols

  /** Position of a class in the fixed order numbers, letters, symbols. */
  function Rank(c: CharClass): nat {
    match c
    case Numbers => 0
    case Letters => 1
    case Symbols => 2
  }

  /** One value per class: the source's dictionaries keyed "numbers", "letters", "symbols". */
  datatype PerClass<T> = PerClass(numbers: T, letters: T, symbols: T) {

    function Get(c: CharClass): T {
      match c
      case Numbers => numbers
      case Letters => letters
      case Symbols => symbols
    }

    /** Overwrites the entry of one class, as `d[key] = v` does. */
    function Put(c: CharClass, v: T): (r: PerClass<T>)
      ensures r.Get(c) == v
      ensures forall d :: d != c ==> r.Get(d) == Get(d)
    {
      match c
      case Numbers => this.(numbers := v)
      case Letters => this.(letters := v)
      case Symbols => this.(symbols := v)
    }
  }

  /** The consecutive ASCII characters from `lo` to `hi`, in code-point order. */
  function CharRange(lo: char, hi: char): (r: string)
    requires lo <= hi && hi as int < 128
    ensures |r| == hi as int - lo as int + 1
    ensures forall i :: 0 <= i < |r| ==> r[i] as int == lo as int + i
  {
    seq(hi as int - lo as int + 1, i requires 0 <= i <= hi as int - lo as int => (lo as int + i) as char)
  }

  lemma InCharRange(lo: char, hi: char, ch: char)
    requires lo <= hi && hi as int < 128
    ensures ch in CharRange(lo, hi) <==> lo <= ch <= hi
  {
    var r := CharRange(lo, hi);
    if lo <= ch <= hi {
      assert r[ch as int - lo as int] == ch;
    }
  }

  /** `string.digits`: 0123456789. */
  const Digits: string := CharRange('0', '9')

  /** `string.ascii_letters`: the lower-case letters a-z, then the upper-case letters A-Z. */
  const AsciiLetters: string := CharRange('a', 'z') + CharRange('A', 'Z')

  /** `string.punctuation`: the 32 printable ASCII characters that are neither letters, digits nor space. */
  const Punctuation: string := CharRange('!', '/') + CharRange(':', '@') + CharRange('[', '`') + CharRange('{', '~')

  /** The alphabet a class draws from. */
  function Alphabet(c: CharClass): string {
    match c
    case Numbers => Digits
    case Letters => AsciiLetters
    case Symbols => Punctuation
  }

  /** Membership in each alphabet, stated by code-point ranges. */
  predicate IsClassChar(c: CharClass, ch: char) {
    match c
    case Numbers => '0' <= ch <= '9'
    case Letters => 'a' <= ch <= 'z' || 'A' <= ch <= 'Z'
    case Symbols => '!' <= ch <= '/' || ':' <= ch <= '@' || '[' <= ch <= '`' || '{' <= ch <= '~'
  }

  lemma AlphabetMembers(c: CharClass, ch: char)
    ensures ch in Alphabet(c) <==> IsClassChar(c, ch)
  {
    match c
    case Numbers =>
      InCharRange('0', '9', ch);
    case Letters =>
      InCharRange('a', 'z', ch);
      InCharRange('A', 'Z', ch);
    case Symbols =>
      InCharRange('!', '/', ch);
      InCharRange(':', '@', ch);
      InCharRange('[', '`', ch);
      InCharRange('{', '~', ch);
  }

  /** The sizes the source relies on: 10 digits, 52 letters, 32 punctuation characters. */
  lemma AlphabetSizes()
    ensures |Alphabet(Numbers)| == 10
    ensures |Alphabet(Letters)| == 52
    ensures |Alphabet(Symbols)| == 32
  {
  }

  /** The constants spelled out as Python defines them. */
  lemma DigitsAsWritten()
    ensures Digits == "0123456789"
  {
  }

  lemma LowerCaseAsWritten()
    ensures CharRange('a', 'z') == "abcdefghijklmnopqrstuvwxyz"
  {
  }

  lemma UpperCaseAsWritten()
    ensures CharRange('A', 'Z') == "ABCDEFGHIJKLMNOPQRSTUVWXYZ"
  {
  }

  lemma AsciiLettersAsWritten()
    ensures AsciiLetters == "abcdefghijklmnopqrstuvwxyzABCDEFGHIJKLMNOPQRSTUVWXYZ"
  {
    LowerCaseAsWritten();
    UpperCaseAsWritten();
  }

  lemma PunctuationAsWritten()
    ensures Punctuation == "!\"#$%&'()*+,-./:;<=>?@[\\]^_`{|}~"
  {
  }

  /** No character belongs to two classes, so a character's class is well defined. */
  lemma AlphabetsDisjoint(c: CharClass, d: CharClass, ch: char)
    requires ch in Alphabet(c) && ch in Alphabet(d)
    ensures c == d
  {
    AlphabetMembers(c, ch);
    AlphabetMembers(d, ch);
  }

  /** Number of characters of `s` that belong to the alphabet of `c`. */
  function ClassCount(s: string, c: CharClass): (n: nat)
    ensures n <= |s|
  {
    if s == [] then 0 else (if s[0] in Alphabet(c) then 1 else 0) + ClassCount(s[1..], c)
  }

  lemma {:induction false} ClassCountAppend(a: string, b: string, c: CharClass)
    ensures ClassCount(a + b, c) == ClassCount(a, c) + ClassCount(b, c)
    decreases |a|
  {
    if a == [] {
      assert a + b == b;
    } else {
      assert (a + b)[1..] == a[1..] + b;
      ClassCountAppend(a[1..], b, c);
    }
  }

  /** Taking out the character at position `k` leaves the rest of the multiset. */
  lemma MultisetRemoveAt(t: string, k: nat)
    requires k < |t|
    ensures multiset(t[..k] + t[k + 1..]) == multiset(t) - multiset{t[k]}
  {
    assert t == t[..k] + [t[k]] + t[k + 1..];
  }

  /** Taking out the character at position `k` lowers the count of its class by one. */
  lemma ClassCountRemoveAt(t: string, k: nat, c: CharClass)
    requires k < |t|
    ensures ClassCount(t, c) == ClassCount(t[..k] + t[k + 1..], c) + (if t[k] in Alphabet(c) then 1 else 0)
  {
    assert t == t[..k] + [t[k]] + t[k + 1..];
    ClassCountAppend(t[..k] + [t[k]], t[k + 1..], c);
    ClassCountAppend(t[..k], [t[k]], c);
    ClassCountAppend(t[..k], t[k + 1..], c);
  }

  /** In a permutation of `s`, some position holds `s[0]`, and the rest is a permutation of `s[1..]`. */
  lemma MatchFirst(s: string, t: string) returns (k: nat)
    requires s != [] && multiset(s) == multiset(t)
    ensures k < |t| && t[k] == s[0]
    ensures multiset(s[1..]) == multiset(t[..k] + t[k + 1..])
  {
    assert s[0] in multiset(t);
    assert s[0] in t;
    k :| 0 <= k < |t| && t[k] == s[0];
    MultisetRemoveAt(s, 0);
    MultisetRemoveAt(t, k);
    assert s[..0] + s[1..] == s[1..];
  }

  /** Reordering a string does not change how many of its characters each class has. */
  lemma {:induction false} ClassCountPermutation(s: string, t: string, c: CharClass)
    requires multiset(s) == multiset(t)
    ensures ClassCount(s, c) == ClassCount(t, c)
    decreases |s|
  {
    if s == [] {
      assert |multiset(t)| == 0;
    } else {
      var k := MatchFirst(s, t);
      ClassCountPermutation(s[1..], t[..k] + t[k + 1..], c);
      ClassCountRemoveAt(t, k, c);
    }
  }

  /** A string drawn from one alphabet counts entirely towards that class and not at all towards the others. */
  lemma {:induction false} ClassCountSingleClass(s: string, c: CharClass, d: CharClass)
    requires forall i :: 0 <= i < |s| ==> s[i] in Alphabet(c)
    ensures ClassCount(s, d) == if c == d then |s| else 0
  {
    if s != [] {
      if c != d && s[0] in Alphabet(d) {
        AlphabetsDisjoint(c, d, s[0]);
      }
      ClassCountSingleClass(s[1..], c, d);
    }
  }
}
