// What `SpglslSymbolGenerator` (symbols/spglsl-symbol-usage.cpp) computes
// on values: the character classes of <ctype.h> on ASCII, the character
// ranking `charLess`, the letter and letter-pair counts that `load` takes
// from the rendered text, the orders its three sorts use, and the short
// names the counter in `getOrCreateMangledName` spells out.

module SymbolNames {

  // ---------------------------------------------------------------------
  // Character classes (ASCII, the "C" locale)
  // ---------------------------------------------------------------------

  predicate IsLower(c: char) { 'a' <= c <= 'z' }

  predicate IsUpper(c: char) { 'A' <= c <= 'Z' }

  predicate IsDigit(c: char) { '0' <= c <= '9' }

  predicate IsAlpha(c: char) { IsLower(c) || IsUpper(c) }

  predicate IsAlnum(c: char) { IsAlpha(c) || IsDigit(c) }

  /** `__builtin_popcount`: the number of set bits of `n`. */
  function PopCount(n: nat): nat {
    if n == 0 then 0 else n % 2 + PopCount(n / 2)
  }

  /**
   * `charLess`: letters before everything else, then lower case before the
   * rest, then fewer set bits, then the smaller code.
   */
  predicate CharLess(a: char, b: char) {
    if IsAlpha(a) != IsAlpha(b) then IsAlpha(a)
    else if IsLower(a) != IsLower(b) then IsLower(a)
    else if PopCount(a as int) != PopCount(b as int) then PopCount(a as int) < PopCount(b as int)
    else a < b
  }

  /** `charLess` ranks any two different characters one way and never both. */
  lemma CharLessIsStrictTotal()
    ensures forall a :: !CharLess(a, a)
    ensures forall a, b :: a != b ==> (CharLess(a, b) <==> !CharLess(b, a))
    ensures forall a, b, c :: CharLess(a, b) && CharLess(b, c) ==> CharLess(a, c)
  {
  }

  // ---------------------------------------------------------------------
  // What `load` counts in the rendered text
  // ---------------------------------------------------------------------

  /** How many times `c` occurs in `text`. */
  function Occurrences(text: string, c: char): nat {
    if |text| == 0 then 0
    else Occurrences(text[..|text| - 1], c) + (if text[|text| - 1] == c then 1 else 0)
  }

  /**
   * How many times the two-character word `w` occurs in `text` as a letter
   * followed by a letter or digit.
   */
  function PairCount(text: string, w: string): nat {
    if |text| < 2 then 0
    else
      PairCount(text[..|text| - 1], w) +
      (if IsAlpha(text[|text| - 2]) && IsAlnum(text[|text| - 1]) && w == text[|text| - 2..] then 1 else 0)
  }

  /** The words `load` counts: every single letter, and every letter pair seen in `text`. */
  predicate IsCandidateWord(text: string, w: string) {
    (|w| == 1 && IsAlpha(w[0])) || (|w| == 2 && PairCount(text, w) > 0)
  }

  /** The count `load` keeps for a word: one to start with for a letter, plus what `text` holds. */
  function WordWeight(text: string, w: string): nat {
    if |w| == 1 then 1 + Occurrences(text, w[0]) else PairCount(text, w)
  }

  /** The count `load` keeps for a character of the `chars` and `charsAndNumbers` pools. */
  function CharWeight(text: string, c: char): nat {
    1 + Occurrences(text, c)
  }

  /** A pair is a letter followed by a letter or digit. */
  lemma PairShape(text: string, w: string)
    requires PairCount(text, w) > 0
    ensures |w| == 2 && IsAlpha(w[0]) && IsAlnum(w[1])
  {
    if |text| >= 2 && PairCount(text[..|text| - 1], w) > 0 {
      PairShape(text[..|text| - 1], w);
    }
  }

  // ---------------------------------------------------------------------
  // The orders of the three sorts of `load`
  // ---------------------------------------------------------------------

  /** The order of the character pools: higher count first, then `charLess`. */
  predicate CountThenChar(a: (char, nat), b: (char, nat)) {
    a.1 > b.1 || (a.1 == b.1 && CharLess(a.0, b.0))
  }

  /**
   * The order of the word pool: shorter first, then higher count, then
   * `charLess` on the first character and then on the second. (The words
   * are never empty; the guard only keeps the indexing in bounds.)
   */
  predicate WordBefore(a: (string, nat), b: (string, nat)) {
    if |a.0| != |b.0| then |a.0| < |b.0|
    else if a.1 != b.1 then a.1 > b.1
    else if |a.0| == 0 then false
    else if a.0[0] != b.0[0] then CharLess(a.0[0], b.0[0])
    else |a.0| > 1 && CharLess(a.0[1], b.0[1])
  }

  lemma CountThenCharIsStrictOrder()
    ensures forall a :: !CountThenChar(a, a)
    ensures forall a, b, c :: CountThenChar(a, b) && CountThenChar(b, c) ==> CountThenChar(a, c)
    ensures forall a: (char, nat), b: (char, nat) :: a.0 != b.0 ==> CountThenChar(a, b) || CountThenChar(b, a)
  {
    CharLessIsStrictTotal();
  }

  lemma WordBeforeIsStrictOrder()
    ensures forall a :: !WordBefore(a, a)
    ensures forall a, b, c :: WordBefore(a, b) && WordBefore(b, c) ==> WordBefore(a, c)
  {
    CharLessIsStrictTotal();
  }

  /** On words of one or two characters the word order ranks any two different words. */
  lemma WordBeforeTotal(a: (string, nat), b: (string, nat))
    requires 1 <= |a.0| <= 2 && 1 <= |b.0| <= 2 && a.0 != b.0
    ensures WordBefore(a, b) || WordBefore(b, a)
  {
    CharLessIsStrictTotal();
    if |a.0| == |b.0| == 2 {
      assert a.0 == [a.0[0], a.0[1]] && b.0 == [b.0[0], b.0[1]];
    } else if |a.0| == |b.0| == 1 {
      assert a.0 == [a.0[0]] && b.0 == [b.0[0]];
    }
  }

  // ---------------------------------------------------------------------
  // The names the counter spells out
  // ---------------------------------------------------------------------

  /**
   * The name for counter value `index`: a first character from `chars`,
   * then a bijective base-|charsAndNumbers| numeral from `charsAndNumbers`.
   */
  function CounterName(chars: seq<char>, charsAndNumbers: seq<char>, index: nat): (r: string)
    requires |chars| > 0 && |charsAndNumbers| > 0
    ensures |r| >= 1 && r[0] in chars
    ensures forall i :: 1 <= i < |r| ==> r[i] in charsAndNumbers
  {
    [chars[index % |chars|]] + CounterTail(charsAndNumbers, index / |chars|)
  }

  function CounterTail(charsAndNumbers: seq<char>, index: nat): (r: string)
    requires |charsAndNumbers| > 0
    ensures forall i :: 0 <= i < |r| ==> r[i] in charsAndNumbers
    ensures |r| == 0 <==> index == 0
    decreases index
  {
    if index == 0 then []
    else
      var n := |charsAndNumbers|;
      DivShrinks(index - 1, n);
      [charsAndNumbers[(index - 1) % n]] + CounterTail(charsAndNumbers, (index - 1) / n)
  }

  lemma {:induction false} MulGrows(q: nat, n: nat)
    requires n > 0
    ensures q <= q * n
    decreases n
  {
    if n > 1 {
      MulGrows(q, n - 1);
      assert q * n == q * (n - 1) + q;
    }
  }

  /** Euclidean division by a positive count: quotient and remainder rebuild `m`, and the quotient is no larger. */
  lemma DivShrinks(m: nat, n: nat)
    requires n > 0
    ensures 0 <= m / n <= m
    ensures 0 <= m % n < n
    ensures m == n * (m / n) + m % n
  {
    var q := m / n;
    assert m == n * q + m % n;
    assert n * q == q * n;
    MulGrows(q, n);
  }

  /** Position of `c` in `s`, or `|s|` when it is absent. */
  function IndexOf(s: seq<char>, c: char): (r: nat)
    ensures r <= |s|
    ensures r < |s| ==> s[r] == c && forall i :: 0 <= i < r ==> s[i] != c
    ensures r == |s| ==> c !in s
  {
    if |s| == 0 then 0
    else if s[0] == c then 0
    else 1 + IndexOf(s[1..], c)
  }

  /** Reads a name back as a counter value (the inverse of `CounterName`). */
  function CounterValue(chars: seq<char>, charsAndNumbers: seq<char>, w: string): nat {
    if |w| == 0 then 0
    else IndexOf(chars, w[0]) + |chars| * TailValue(charsAndNumbers, w[1..])
  }

  function TailValue(charsAndNumbers: seq<char>, w: string): nat {
    if |w| == 0 then 0
    else IndexOf(charsAndNumbers, w[0]) + 1 + |charsAndNumbers| * TailValue(charsAndNumbers, w[1..])
  }

  /** No character is listed twice. */
  predicate Distinct(s: seq<char>) {
    forall i, j :: 0 <= i < j < |s| ==> s[i] != s[j]
  }

  lemma IndexOfDistinct(s: seq<char>, i: nat)
    requires Distinct(s) && i < |s|
    ensures IndexOf(s, s[i]) == i
  {
  }

  lemma {:induction false} TailRoundTrip(charsAndNumbers: seq<char>, index: nat)
    requires |charsAndNumbers| > 0 && Distinct(charsAndNumbers)
    ensures TailValue(charsAndNumbers, CounterTail(charsAndNumbers, index)) == index
    decreases index
  {
    if index > 0 {
      var n := |charsAndNumbers|;
      var q, r := (index - 1) / n, (index - 1) % n;
      var w := CounterTail(charsAndNumbers, index);
      assert w == [charsAndNumbers[r]] + CounterTail(charsAndNumbers, q);
      assert w[1..] == CounterTail(charsAndNumbers, q);
      DivShrinks(index - 1, n);
      TailRoundTrip(charsAndNumbers, q);
      IndexOfDistinct(charsAndNumbers, r);
      assert TailValue(charsAndNumbers, w) == r + 1 + n * q;
    }
  }

  /** Decoding a counter name gives back the counter value. */
  lemma CounterNameRoundTrip(chars: seq<char>, charsAndNumbers: seq<char>, index: nat)
    requires |chars| > 0 && |charsAndNumbers| > 0 && Distinct(chars) && Distinct(charsAndNumbers)
    ensures CounterValue(chars, charsAndNumbers, CounterName(chars, charsAndNumbers, index)) == index
  {
    var c := |chars|;
    var w := CounterName(chars, charsAndNumbers, index);
    assert w[1..] == CounterTail(charsAndNumbers, index / c);
    DivShrinks(index, c);
    TailRoundTrip(charsAndNumbers, index / c);
    IndexOfDistinct(chars, index % c);
    assert CounterValue(chars, charsAndNumbers, w) == index % c + c * (index / c);
  }

  /** Different counter values never spell the same name. */
  lemma CounterNameInjective(chars: seq<char>, charsAndNumbers: seq<char>, i: nat, j: nat)
    requires |chars| > 0 && |charsAndNumbers| > 0 && Distinct(chars) && Distinct(charsAndNumbers)
    requires i != j
    ensures CounterName(chars, charsAndNumbers, i) != CounterName(chars, charsAndNumbers, j)
  {
    CounterNameRoundTrip(chars, charsAndNumbers, i);
    CounterNameRoundTrip(chars, charsAndNumbers, j);
  }

  /**
   * The rejected names the counter can still reach from `counter`: the
   * measure that shrinks each time the counter spells a rejected name.
   */
  ghost function PendingNames(rejected: set<string>, chars: seq<char>, charsAndNumbers: seq<char>, counter: nat): set<string> {
    set w | w in rejected && CounterValue(chars, charsAndNumbers, w) >= counter
  }

  lemma PendingShrinks(rejected: set<string>, chars: seq<char>, charsAndNumbers: seq<char>, counter: nat)
    requires |chars| > 0 && |charsAndNumbers| > 0 && Distinct(chars) && Distinct(charsAndNumbers)
    requires CounterName(chars, charsAndNumbers, counter) in rejected
    ensures |PendingNames(rejected, chars, charsAndNumbers, counter + 1)| <
            |PendingNames(rejected, chars, charsAndNumbers, counter)|
  {
    var w := CounterName(chars, charsAndNumbers, counter);
    CounterNameRoundTrip(chars, charsAndNumbers, counter);
    var before := PendingNames(rejected, chars, charsAndNumbers, counter);
    var after := PendingNames(rejected, chars, charsAndNumbers, counter + 1);
    forall x | x in after
      ensures x in before - {w}
    {
    }
    assert w in before;
    SubsetCardinality(after, before - {w});
  }

  lemma {:induction false} SubsetCardinality<T>(a: set<T>, b: set<T>)
    requires a <= b
    ensures |a| <= |b|
    decreases |b|
  {
    if a != {} {
      var x :| x in a;
      SubsetCardinality(a - {x}, b - {x});
    }
  }
}
