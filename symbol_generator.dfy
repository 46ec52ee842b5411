// `SpglslSymbolGenerator` of symbols/spglsl-symbol-usage.cpp: the pools of
// short names built from the rendered program (`load`), the reserved words,
// and the memoised hand-out of one fresh name per mangle id
// (`getOrCreateMangledName`).

module SymbolGeneration {
  import opened SymbolNames
  import opened Sorting

  /**
   * The counting pass of `load`: the letters, the letters and digits, and
   * the one- and two-character words of `text`, each with its count (the
   * letters and the one-letter words start from one).
   */
  method CountText(text: string) returns (ascii: map<char, nat>, asciiAndNums: map<char, nat>, counts: map<string, nat>)
    ensures CharCounts(text, ascii, false)
    ensures CharCounts(text, asciiAndNums, true)
    ensures WordCounts(text, counts)
  {
    ascii, asciiAndNums, counts := InitialCounts();
    var prev: char := 0 as char;
    for i := 0 to |text|
      invariant prev == if i == 0 then 0 as char else text[i - 1]
      invariant CharCounts(text[..i], ascii, false)
      invariant CharCounts(text[..i], asciiAndNums, true)
      invariant WordCounts(text[..i], counts)
    {
      CharCountsStep(text, i, ascii, false);
      CharCountsStep(text, i, asciiAndNums, true);
      WordCountsStep(text, i, counts);
      ascii, asciiAndNums, counts := CountChar(text, i, prev, ascii, asciiAndNums, counts);
      prev := text[i];
    }
    assert text[..|text|] == text;
  }

  /** One character of the text read: its own counts and the count of the pair it closes go up by one. */
  method CountChar(text: string, i: nat, prev: char, ascii: map<char, nat>, asciiAndNums: map<char, nat>, counts: map<string, nat>)
    returns (nextAscii: map<char, nat>, nextAsciiAndNums: map<char, nat>, nextCounts: map<string, nat>)
    requires i < |text| && prev == if i == 0 then 0 as char else text[i - 1]
    ensures nextAscii == NextCharCounts(text, i, ascii, false)
    ensures nextAsciiAndNums == NextCharCounts(text, i, asciiAndNums, true)
    ensures nextCounts == NextWordCounts(text, i, counts)
  {
    var ch := text[i];
    nextAscii, nextAsciiAndNums, nextCounts := ascii, asciiAndNums, counts;
    if IsAlpha(ch) {
      nextAscii := Bump(nextAscii, ch);
      nextAsciiAndNums := Bump(nextAsciiAndNums, ch);
      nextCounts := Bump(nextCounts, [ch]);
    } else if IsAlnum(ch) {
      nextAsciiAndNums := Bump(nextAsciiAndNums, ch);
    }
    if IsAlpha(prev) && IsAlnum(ch) {
      nextCounts := Bump(nextCounts, [prev, ch]);
    }
  }

  /** `++m[k]`: the entry for `k`, created at zero when absent, goes up by one. */
  function Bump<K>(m: map<K, nat>, k: K): map<K, nat> {
    m[k := (if k in m then m[k] else 0) + 1]
  }

  /** `m` holds exactly the letters (with `digits`, the letters and digits), each with its weight in `text`. */
  ghost predicate CharCounts(text: string, m: map<char, nat>, digits: bool) {
    (forall c :: c in m <==> if digits then IsAlnum(c) else IsAlpha(c)) &&
    (forall c :: c in m ==> m[c] == CharWeight(text, c))
  }

  /** The character counts after one more character of the text. */
  ghost function NextCharCounts(text: string, i: nat, m: map<char, nat>, digits: bool): map<char, nat>
    requires i < |text|
  {
    if IsAlpha(text[i]) || (digits && IsAlnum(text[i])) then Bump(m, text[i]) else m
  }

  lemma CharCountsStep(text: string, i: nat, m: map<char, nat>, digits: bool)
    requires i < |text| && CharCounts(text[..i], m, digits)
    ensures CharCounts(text[..i + 1], NextCharCounts(text, i, m, digits), digits)
  {
    OccurrencesStep(text, i);
  }

  /** The counts before the text is read: each letter, digit and one-letter word once. */
  method InitialCounts() returns (ascii: map<char, nat>, asciiAndNums: map<char, nat>, counts: map<string, nat>)
    ensures forall c :: c in ascii <==> IsAlpha(c)
    ensures forall c :: c in ascii ==> ascii[c] == 1
    ensures forall c :: c in asciiAndNums <==> IsAlnum(c)
    ensures forall c :: c in asciiAndNums ==> asciiAndNums[c] == 1
    ensures forall w :: w in counts <==> |w| == 1 && IsAlpha(w[0])
    ensures forall w :: w in counts ==> counts[w] == 1
  {
    ascii, asciiAndNums, counts := map[], map[], map[];
    var c := 'a';
    while c <= 'z'
      invariant 'a' <= c <= '{'
      invariant forall x :: x in ascii <==> 'a' <= x < c
      invariant forall x :: x in asciiAndNums <==> 'a' <= x < c
      invariant forall x :: x in ascii ==> ascii[x] == 1
      invariant forall x :: x in asciiAndNums ==> asciiAndNums[x] == 1
      invariant forall w :: w in counts <==> |w| == 1 && 'a' <= w[0] < c
      invariant forall w :: w in counts ==> counts[w] == 1
    {
      ascii := ascii[c := 1];
      asciiAndNums := asciiAndNums[c := 1];
      counts := counts[[c] := 1];  // absent until now: `words[one]++` makes it 1
      SingletonOf(c);
      c := (c as int + 1) as char;
    }
    c := 'A';
    while c <= 'Z'
      invariant 'A' <= c <= '['
      invariant forall x :: x in ascii <==> IsLower(x) || 'A' <= x < c
      invariant forall x :: x in asciiAndNums <==> IsLower(x) || 'A' <= x < c
      invariant forall x :: x in ascii ==> ascii[x] == 1
      invariant forall x :: x in asciiAndNums ==> asciiAndNums[x] == 1
      invariant forall w :: w in counts <==> |w| == 1 && (IsLower(w[0]) || 'A' <= w[0] < c)
      invariant forall w :: w in counts ==> counts[w] == 1
    {
      ascii := ascii[c := 1];
      asciiAndNums := asciiAndNums[c := 1];
      counts := counts[[c] := 1];  // absent until now: `words[one]++` makes it 1
      SingletonOf(c);
      c := (c as int + 1) as char;
    }
    c := '0';
    while c <= '9'
      invariant '0' <= c <= ':'
      invariant forall x :: x in asciiAndNums <==> IsAlpha(x) || '0' <= x < c
      invariant forall x :: x in asciiAndNums ==> asciiAndNums[x] == 1
    {
      asciiAndNums := asciiAndNums[c := 1];
      c := (c as int + 1) as char;
    }
  }

  /** `counts` holds exactly the candidate words of `text`, each with its weight. */
  ghost predicate WordCounts(text: string, counts: map<string, nat>) {
    (forall w :: w in counts <==> IsCandidateWord(text, w)) &&
    (forall w :: w in counts ==> counts[w] == WordWeight(text, w))
  }

  /** The word counts after one more character: its letter and the pair it closes go up by one. */
  ghost function NextWordCounts(text: string, i: nat, m: map<string, nat>): map<string, nat>
    requires i < |text|
  {
    var m1 := if IsAlpha(text[i]) then Bump(m, [text[i]]) else m;
    if i >= 1 && IsAlpha(text[i - 1]) && IsAlnum(text[i]) then Bump(m1, [text[i - 1], text[i]]) else m1
  }

  lemma WordCountsStep(text: string, i: nat, m: map<string, nat>)
    requires i < |text| && WordCounts(text[..i], m)
    ensures WordCounts(text[..i + 1], NextWordCounts(text, i, m))
  {
    OccurrencesStep(text, i);
    PairStep(text, i);
    var after := NextWordCounts(text, i, m);
    forall w
      ensures w in after <==> IsCandidateWord(text[..i + 1], w)
    {
    }
    forall w | w in after
      ensures after[w] == WordWeight(text[..i + 1], w)
    {
      if |w| == 1 {
        assert w == [w[0]];
      }
    }
  }

  /** The one-character strings are the singletons. */
  lemma SingletonOf(c: char)
    ensures forall w :: |w| == 1 && w[0] == c <==> w == [c]
  {
    forall w | |w| == 1 && w[0] == c
      ensures w == [c]
    {
      assert w == [w[0]];
    }
  }

  /** One if the characters at `i - 1` and `i` of `text` are a letter pair spelling `w`. */
  function PairAt(text: string, i: nat, w: string): nat
    requires i < |text|
  {
    if i >= 1 && IsAlpha(text[i - 1]) && IsAlnum(text[i]) && w == [text[i - 1], text[i]] then 1 else 0
  }

  /** One more character of the text adds one to its own count. */
  lemma OccurrencesStep(text: string, i: nat)
    requires i < |text|
    ensures forall c :: Occurrences(text[..i + 1], c) == Occurrences(text[..i], c) + (if text[i] == c then 1 else 0)
  {
    var s := text[..i + 1];
    assert s[..|s| - 1] == text[..i];
  }

  /** One more character of the text adds one to the count of the pair it closes. */
  lemma PairStep(text: string, i: nat)
    requires i < |text|
    ensures forall w :: PairCount(text[..i + 1], w) == PairCount(text[..i], w) + PairAt(text, i, w)
  {
    var s := text[..i + 1];
    if i == 0 {
      forall w ensures PairCount(s, w) == PairCount(text[..i], w) + PairAt(text, i, w) {
      }
    } else {
      var last := [text[i - 1], text[i]];
      assert s[..|s| - 1] == text[..i];
      assert s[|s| - 2..] == last;
      assert s[|s| - 2] == text[i - 1] && s[|s| - 1] == text[i];
      forall w ensures PairCount(s, w) == PairCount(text[..i], w) + PairAt(text, i, w) {
      }
    }
  }

  /** Each character ranks before every later one: higher count first, then `charLess`. */
  ghost predicate CharsRanked(text: string, pool: seq<char>) {
    forall i, j :: 0 <= i < j < |pool| ==>
      CountThenChar((pool[i], CharWeight(text, pool[i])), (pool[j], CharWeight(text, pool[j])))
  }

  /** Each word ranks before every later one: shorter first, then higher count, then `charLess`. */
  ghost predicate WordsRanked(text: string, pool: seq<string>) {
    forall i, j :: 0 <= i < j < |pool| ==>
      WordBefore((pool[i], WordWeight(text, pool[i])), (pool[j], WordWeight(text, pool[j])))
  }

  /**
   * The entries of a character-count map sorted by count then `charLess`,
   * and the characters read off in that order.
   */
  method RankChars(text: string, m: map<char, nat>, digits: bool) returns (pool: seq<char>)
    requires CharCounts(text, m, digits)
    ensures forall c :: c in pool <==> if digits then IsAlnum(c) else IsAlpha(c)
    ensures CharsRanked(text, pool)
    ensures Distinct(pool) && 'a' in pool
  {
    CountThenCharIsStrictOrder();
    var sorted := SortedItems(m, CountThenChar);
    pool := KeysInOrder(sorted);
    ItemsListed(m, sorted);
    forall c | c in m
      ensures c in pool
    {
      var i :| 0 <= i < |sorted| && sorted[i].0 == c;
      assert pool[i] == c;
    }
    forall i, j | 0 <= i < j < |pool|
      ensures CountThenChar((pool[i], CharWeight(text, pool[i])), (pool[j], CharWeight(text, pool[j])))
    {
      assert sorted[i] == (pool[i], CharWeight(text, pool[i]));
      assert sorted[j] == (pool[j], CharWeight(text, pool[j]));
    }
  }

  /** The keys of sorted (key, count) entries, in order. */
  method KeysInOrder<K>(entries: seq<(K, nat)>) returns (keys: seq<K>)
    ensures |keys| == |entries| && forall i :: 0 <= i < |entries| ==> keys[i] == entries[i].0
  {
    keys := [];
    for i := 0 to |entries|
      invariant |keys| == i && forall k :: 0 <= k < i ==> keys[k] == entries[k].0
    {
      keys := keys + [entries[i].0];
    }
  }

  /** The entries of the word-count map sorted by length, count, then `charLess`. */
  method RankWords(text: string, m: map<string, nat>) returns (r: seq<(string, nat)>)
    requires WordCounts(text, m)
    ensures forall i :: 0 <= i < |r| ==> r[i].0 in m && r[i].1 == WordWeight(text, r[i].0)
    ensures forall w :: w in m ==> exists i :: 0 <= i < |r| && r[i].0 == w
    ensures forall i, j :: 0 <= i < j < |r| ==> WordBefore(r[i], r[j])
  {
    WordBeforeIsStrictOrder();
    r := SortedItems(m, WordBefore);
    ItemsListed(m, r);
    forall i, j | 0 <= i < j < |r|
      ensures WordBefore(r[i], r[j])
    {
      WordLength(text, r[i].0);
      WordLength(text, r[j].0);
      WordBeforeTotal(r[i], r[j]);
    }
  }

  /** The candidate words have one or two characters. */
  lemma WordLength(text: string, w: string)
    requires IsCandidateWord(text, w)
    ensures 1 <= |w| <= 2
  {
    if |w| != 1 {
      PairShape(text, w);
    }
  }

  /** The words of the ranked entries `r` that are not in `reserved`, in order. */
  function Unreserved(r: seq<(string, nat)>, reserved: set<string>): seq<string> {
    if |r| == 0 then []
    else Unreserved(r[..|r| - 1], reserved) + (if r[|r| - 1].0 in reserved then [] else [r[|r| - 1].0])
  }

  /**
   * What the filter of `load` keeps of the ranked words: exactly the
   * unreserved ones, still ranked.
   */
  lemma {:induction false} UnreservedRanked(text: string, r: seq<(string, nat)>, reserved: set<string>)
    requires forall i :: 0 <= i < |r| ==> r[i].1 == WordWeight(text, r[i].0)
    requires forall i, j :: 0 <= i < j < |r| ==> WordBefore(r[i], r[j])
    ensures forall w :: w in Unreserved(r, reserved) <==> w !in reserved && exists i :: 0 <= i < |r| && r[i].0 == w
    ensures WordsRanked(text, Unreserved(r, reserved))
  {
    if |r| > 0 {
      var n := |r| - 1;
      var prefix := r[..n];
      UnreservedRanked(text, prefix, reserved);
      var kept := Unreserved(prefix, reserved);
      forall w
        ensures w in Unreserved(r, reserved) <==> w !in reserved && exists i :: 0 <= i < |r| && r[i].0 == w
      {
        if w !in reserved && w != r[n].0 && exists i :: 0 <= i < |r| && r[i].0 == w {
          var i :| 0 <= i < |r| && r[i].0 == w;
          assert prefix[i].0 == w;
        }
        if w in kept {
          var i :| 0 <= i < |prefix| && prefix[i].0 == w;
          assert r[i].0 == w;
        }
      }
      if r[n].0 !in reserved {
        forall k | 0 <= k < |kept|
          ensures WordBefore((kept[k], WordWeight(text, kept[k])), r[n])
        {
          assert kept[k] in kept;
          var i :| 0 <= i < |prefix| && prefix[i].0 == kept[k];
          assert r[i] == (kept[k], WordWeight(text, kept[k]));
        }
      }
    }
  }

  /** `SpglslSymbolGenerator`. */
  class SymbolGenerator {
    /** The language's own reserved words (`spglslIsWordReserved`), fixed for the run. */
    const keywords: set<string>
    var additionalReservedWords: set<string>
    /** Letters, most frequent first: the first character of a counter name. */
    var chars: seq<char>
    /** Letters and digits, most frequent first: the later characters of a counter name. */
    var charsAndNumbers: seq<char>
    /** The one- and two-character words handed out before the counter is used. */
    var words: seq<string>
    var usedWords: nat
    var genCounter: nat
    var mangleMap: map<int, string>
    var usedNames: set<string>

    /**
     * The empty name is reserved and never handed out; every memoised name
     * is a handed-out one, and no two mangle ids share a name.
     */
    ghost predicate Valid()
      reads this
    {
      "" in additionalReservedWords && "" !in usedNames &&
      (forall id :: id in mangleMap ==> mangleMap[id] in usedNames) &&
      (forall i, j :: i in mangleMap && j in mangleMap && i != j ==> mangleMap[i] != mangleMap[j])
    }

    /** The character pools `load` leaves behind: non-empty, no character twice. */
    ghost predicate Loaded()
      reads this
    {
      |chars| > 0 && |charsAndNumbers| > 0 && Distinct(chars) && Distinct(charsAndNumbers)
    }

    constructor(keywords: set<string>)
      ensures this.keywords == keywords
      ensures additionalReservedWords == {""}
      ensures chars == [] && charsAndNumbers == [] && words == []
      ensures usedWords == 0 && genCounter == 0 && mangleMap == map[] && usedNames == {}
      ensures Valid()
    {
      this.keywords := keywords;
      additionalReservedWords := {""};
      chars, charsAndNumbers, words := [], [], [];
      usedWords, genCounter := 0, 0;
      mangleMap, usedNames := map[], {};
    }

    predicate IsReservedWord(word: string)
      reads this
    {
      word in additionalReservedWords || word in keywords
    }

    method AddReservedWord(word: string)
      requires Valid()
      modifies this
      ensures Valid()
      ensures forall w :: IsReservedWord(w) <==> old(IsReservedWord(w)) || w == word
      ensures additionalReservedWords == old(additionalReservedWords) + {word}
      ensures chars == old(chars) && charsAndNumbers == old(charsAndNumbers) && words == old(words)
      ensures usedWords == old(usedWords) && genCounter == old(genCounter)
      ensures mangleMap == old(mangleMap) && usedNames == old(usedNames)
    {
      additionalReservedWords := additionalReservedWords + {word};
    }

    /**
     * Builds the three pools from the rendered program text: the 52 letters
     * and the 62 letters and digits ranked by count then `charLess`, and the
     * unreserved one- and two-character words ranked by length, count,
     * then `charLess`.
     */
    method Load(text: string)
      modifies this
      ensures additionalReservedWords == old(additionalReservedWords)
      ensures usedWords == old(usedWords) && genCounter == old(genCounter)
      ensures mangleMap == old(mangleMap) && usedNames == old(usedNames)
      ensures old(Valid()) ==> Valid()
      ensures forall c :: c in chars <==> IsAlpha(c)
      ensures CharsRanked(text, chars)
      ensures forall c :: c in charsAndNumbers <==> IsAlnum(c)
      ensures CharsRanked(text, charsAndNumbers)
      ensures forall w :: w in words <==> IsCandidateWord(text, w) && !IsReservedWord(w)
      ensures WordsRanked(text, words)
      ensures Loaded()
    {
      var ascii, asciiAndNums, counts := CountText(text);
      var letters := RankChars(text, ascii, false);
      var alnums := RankChars(text, asciiAndNums, true);
      var kept := RankUnreservedWords(text, counts);
      chars, charsAndNumbers, words := letters, alnums, kept;
    }

    /** The word sort and the filter at the end of `load`: the ranked words in order, reserved ones left out. */
    method RankUnreservedWords(text: string, counts: map<string, nat>) returns (kept: seq<string>)
      requires WordCounts(text, counts)
      ensures forall w :: w in kept <==> IsCandidateWord(text, w) && !IsReservedWord(w)
      ensures WordsRanked(text, kept)
    {
      var wordsSorted := RankWords(text, counts);
      kept := [];
      for i := 0 to |wordsSorted|
        invariant kept == Unreserved(wordsSorted[..i], additionalReservedWords + keywords)
      {
        assert wordsSorted[..i + 1][..i] == wordsSorted[..i];
        if !IsReservedWord(wordsSorted[i].0) {
          kept := kept + [wordsSorted[i].0];
        }
      }
      assert wordsSorted[..|wordsSorted|] == wordsSorted;
      UnreservedRanked(text, wordsSorted, additionalReservedWords + keywords);
    }

    /**
     * The name the counter spells for `index`: one character of `chars`,
     * then digits of `charsAndNumbers` while the quotient is positive. The
     * C++ divides in double precision and floors, which is integer division
     * for counters below 2^53.
     */
    method SpellCounter(index: nat) returns (name: string)
      requires Loaded()
      ensures name == CounterName(chars, charsAndNumbers, index)
    {
      name := [chars[index % |chars|]];
      var rest: nat := index / |chars|;
      while rest > 0
        invariant name + CounterTail(charsAndNumbers, rest) == CounterName(chars, charsAndNumbers, index)
        decreases rest
      {
        ghost var tail := CounterTail(charsAndNumbers, rest);
        rest := rest - 1;
        DivShrinks(rest, |charsAndNumbers|);
        var digit := charsAndNumbers[rest % |charsAndNumbers|];
        assert tail == [digit] + CounterTail(charsAndNumbers, rest / |charsAndNumbers|);
        name := name + [digit];
        rest := rest / |charsAndNumbers|;
      }
    }

    /** The names the hand-out must skip: the reserved words and the names handed out already. */
    ghost function RejectedNames(): set<string>
      reads this
    {
      additionalReservedWords + keywords + usedNames
    }

    /**
     * The name of a mangle id: the memoised one, or else a fresh name,
     * which is remembered for the id.
     */
    method GetOrCreateMangledName(mangleId: int) returns (name: string)
      requires Valid() && Loaded()
      modifies this
      ensures Valid() && Loaded()
      ensures chars == old(chars) && charsAndNumbers == old(charsAndNumbers) && words == old(words)
      ensures additionalReservedWords == old(additionalReservedWords)
      ensures mangleId in old(mangleMap) ==>
        name == old(mangleMap[mangleId]) && mangleMap == old(mangleMap) && usedNames == old(usedNames) &&
        usedWords == old(usedWords) && genCounter == old(genCounter)
      ensures mangleId !in old(mangleMap) ==>
        name !in old(RejectedNames()) && name != "" &&
        usedNames == old(usedNames) + {name} && mangleMap == old(mangleMap)[mangleId := name]
      ensures mangleId !in old(mangleMap) && genCounter == old(genCounter) ==>
        old(usedWords) < usedWords <= |words| && name == words[usedWords - 1] &&
        forall k :: old(usedWords) <= k < usedWords - 1 ==> words[k] in old(RejectedNames())
      ensures mangleId !in old(mangleMap) && genCounter != old(genCounter) ==>
        old(genCounter) < genCounter && usedWords >= |words| &&
        name == CounterName(chars, charsAndNumbers, genCounter - 1) &&
        (forall k :: old(usedWords) <= k < |words| ==> words[k] in old(RejectedNames())) &&
        (forall g :: old(genCounter) <= g < genCounter - 1 ==> CounterName(chars, charsAndNumbers, g) in old(RejectedNames()))
    {
      if mangleId in mangleMap {
        name := mangleMap[mangleId];
        return;
      }
      name := NextFreeName();
      mangleMap := mangleMap[mangleId := name];
    }

    /** One candidate of the hand-out: the next word of the pool, or once the pool is used up the next counter name. */
    method NextCandidate() returns (candidate: string)
      requires Loaded()
      modifies this
      ensures chars == old(chars) && charsAndNumbers == old(charsAndNumbers) && words == old(words)
      ensures additionalReservedWords == old(additionalReservedWords)
      ensures usedNames == old(usedNames) && mangleMap == old(mangleMap)
      ensures old(usedWords) < |words| ==>
        candidate == words[old(usedWords)] && usedWords == old(usedWords) + 1 && genCounter == old(genCounter)
      ensures old(usedWords) >= |words| ==>
        candidate == CounterName(chars, charsAndNumbers, old(genCounter)) &&
        usedWords == old(usedWords) && genCounter == old(genCounter) + 1
    {
      if usedWords < |words| {
        candidate := words[usedWords];
        usedWords := usedWords + 1;
      } else {
        var index := genCounter;
        genCounter := genCounter + 1;
        candidate := SpellCounter(index);
      }
    }

    /**
     * The `for (;;)` of `getOrCreateMangledName`: the first word of the
     * pool, and after the pool the first counter name, that is neither
     * reserved nor handed out already; it is recorded as handed out.
     */
    method NextFreeName() returns (name: string)
      requires Valid() && Loaded()
      modifies this
      ensures Valid() && Loaded()
      ensures chars == old(chars) && charsAndNumbers == old(charsAndNumbers) && words == old(words)
      ensures additionalReservedWords == old(additionalReservedWords) && mangleMap == old(mangleMap)
      ensures name !in old(RejectedNames()) && name != ""
      ensures usedNames == old(usedNames) + {name}
      ensures genCounter == old(genCounter) ==>
        old(usedWords) < usedWords <= |words| && name == words[usedWords - 1] &&
        forall k :: old(usedWords) <= k < usedWords - 1 ==> words[k] in old(RejectedNames())
      ensures genCounter != old(genCounter) ==>
        old(genCounter) < genCounter && usedWords >= |words| &&
        name == CounterName(chars, charsAndNumbers, genCounter - 1) &&
        (forall k :: old(usedWords) <= k < |words| ==> words[k] in old(RejectedNames())) &&
        (forall g :: old(genCounter) <= g < genCounter - 1 ==> CounterName(chars, charsAndNumbers, g) in old(RejectedNames()))
    {
      ghost var rejected := RejectedNames();
      while true
        invariant Loaded()
        invariant chars == old(chars) && charsAndNumbers == old(charsAndNumbers) && words == old(words)
        invariant additionalReservedWords == old(additionalReservedWords)
        invariant usedNames == old(usedNames) && mangleMap == old(mangleMap)
        invariant old(usedWords) <= usedWords && old(genCounter) <= genCounter
        invariant genCounter != old(genCounter) ==> usedWords >= |words|
        invariant forall k :: old(usedWords) <= k < usedWords && k < |words| ==> words[k] in rejected
        invariant forall g :: old(genCounter) <= g < genCounter ==> CounterName(chars, charsAndNumbers, g) in rejected
        decreases if usedWords < |words| then |words| - usedWords else 0,
                  |PendingNames(rejected, chars, charsAndNumbers, genCounter)|
      {
        ghost var counter := genCounter;
        var candidate := NextCandidate();
        if genCounter != counter && candidate in rejected {
          PendingShrinks(rejected, chars, charsAndNumbers, counter);
        }
        if IsReservedWord(candidate) {
          continue;
        }
        if candidate !in usedNames {
          usedNames := usedNames + {candidate};
          name := candidate;
          break;
        }
      }
    }
  }

  /** Asking twice for the same id gives the same name and changes nothing the second time. */
  method MemoisedTwice(g: SymbolGenerator, mangleId: int) returns (first: string, second: string)
    requires g.Valid() && g.Loaded()
    modifies g
    ensures first == second
    ensures g.Valid()
  {
    first := g.GetOrCreateMangledName(mangleId);
    second := g.GetOrCreateMangledName(mangleId);
  }
}
