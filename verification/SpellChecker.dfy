/**
  The spell checker: the growing list, the edits of a word, and the suggestions, which as a set are exactly
  the dictionary words one or two edits away.
 */
module SpellChecker {
  import opened Options
  import opened HashTable
  import opened HashRuns
  import opened HashMap

  // ---------------------------------------------------------------- the growing list

  class GTUList<E(0)> {
    var elements: array<E>
    var size: nat

    ghost predicate Valid()
      reads this
    {
      size <= elements.Length
    }

    ghost function Items(): seq<E>
      requires Valid()
      reads this, elements
    {
      elements[..size]
    }

    constructor (initialCapacity: nat)
      ensures Valid() && fresh(elements) && elements.Length == initialCapacity && Items() == []
    {
      elements := new E[initialCapacity];
      size := 0;
    }

    /** Appends; a new array is allocated exactly when the current one is full. */
    method Add(element: E)
      requires Valid()
      modifies this, elements
      ensures Valid() && Items() == old(Items()) + [element]
      ensures if old(size) < old(elements.Length) then elements == old(elements)
              else fresh(elements) && elements.Length == if old(elements.Length) == 0 then 1 else 2 * old(elements.Length)
    {
      EnsureCapacity(size + 1);
      elements[size] := element;
      size := size + 1;
    }

    method EnsureCapacity(minCapacity: nat)
      requires Valid() && size <= minCapacity
      modifies this`elements
      ensures Valid() && elements.Length >= minCapacity && Items() == old(Items())
      ensures if minCapacity <= old(elements.Length) then elements == old(elements) else fresh(elements)
      ensures elements.Length == if minCapacity <= old(elements.Length) then old(elements.Length)
                                 else if 2 * old(elements.Length) >= minCapacity then 2 * old(elements.Length)
                                 else minCapacity
    {
      if minCapacity > elements.Length {
        var newCapacity := if elements.Length * 2 >= minCapacity then elements.Length * 2 else minCapacity;
        var newElements := new E[newCapacity];
        for i := 0 to size
          modifies newElements
          invariant newElements[..i] == elements[..i]
        {
          newElements[i] := elements[i];
        }
        elements := newElements;
      }
    }
  }

  // ---------------------------------------------------------------- edits

  predicate Lowercase(c: char) { 'a' <= c <= 'z' }

  /** The i-th letter of the loop over a to z. */
  function Letter(i: nat): (c: char)
    requires i < 26
    ensures Lowercase(c)
  {
    ('a' as int + i) as char
  }

  function DeleteAt(w: string, i: nat): string
    requires i < |w|
  {
    w[..i] + w[i + 1..]
  }

  function SwapAt(w: string, i: nat): string
    requires i + 1 < |w|
  {
    w[i := w[i + 1]][i + 1 := w[i]]
  }

  function InsertAt(w: string, i: nat, c: char): string
    requires i <= |w|
  {
    w[..i] + [c] + w[i..]
  }

  /** The single edits, letter by letter. */
  lemma EditsByLetter(w: string, i: nat, c: char, k: nat)
    ensures i < |w| ==>
              && |DeleteAt(w, i)| == |w| - 1
              && (k < |w| - 1 ==> DeleteAt(w, i)[k] == if k < i then w[k] else w[k + 1])
    ensures i + 1 < |w| ==>
              && |SwapAt(w, i)| == |w|
              && (k < |w| ==> SwapAt(w, i)[k] == if k == i then w[i + 1] else if k == i + 1 then w[i] else w[k])
    ensures i <= |w| ==>
              && |InsertAt(w, i, c)| == |w| + 1
              && (k <= |w| ==> InsertAt(w, i, c)[k] == if k < i then w[k] else if k == i then c else w[k - 1])
  {}

  /** What one edit of a word means, independently of the order in which the program lists them. */
  ghost predicate OneEdit(w: string, e: string) {
    || (exists i: nat :: i < |w| && e == DeleteAt(w, i))
    || (exists i: nat :: i + 1 < |w| && e == SwapAt(w, i))
    || (exists i: nat, c :: i < |w| && Lowercase(c) && c != w[i] && e == w[i := c])
    || (exists i: nat, c :: i <= |w| && Lowercase(c) && e == InsertAt(w, i, c))
  }

  // The four loops, as the sequences of strings they append.

  function Deletions(w: string, n: nat): seq<string>
    requires n <= |w|
  {
    if n == 0 then [] else Deletions(w, n - 1) + [DeleteAt(w, n - 1)]
  }

  function Swaps(w: string, n: nat): seq<string>
    requires n <= if |w| > 1 then |w| - 1 else 0
  {
    if n == 0 then [] else Swaps(w, n - 1) + [SwapAt(w, n - 1)]
  }

  function ReplacementsAt(w: string, i: nat, n: nat): seq<string>
    requires i < |w| && n <= 26
  {
    if n == 0 then []
    else ReplacementsAt(w, i, n - 1) + (if Letter(n - 1) != w[i] then [w[i := Letter(n - 1)]] else [])
  }

  function Replacements(w: string, n: nat): seq<string>
    requires n <= |w|
  {
    if n == 0 then [] else Replacements(w, n - 1) + ReplacementsAt(w, n - 1, 26)
  }

  function InsertionsAt(w: string, i: nat, n: nat): seq<string>
    requires i <= |w| && n <= 26
  {
    if n == 0 then [] else InsertionsAt(w, i, n - 1) + [InsertAt(w, i, Letter(n - 1))]
  }

  function Insertions(w: string, n: nat): seq<string>
    requires n <= |w| + 1
  {
    if n == 0 then [] else Insertions(w, n - 1) + InsertionsAt(w, n - 1, 26)
  }

  function Edits(w: string): seq<string> {
    Deletions(w, |w|) + Swaps(w, if |w| > 1 then |w| - 1 else 0) + Replacements(w, |w|) + Insertions(w, |w| + 1)
  }

  // ---------------------------------------------------------------- the edits are the one-edit words

  lemma {:induction false} DeletionsAre(w: string, n: nat, e: string)
    requires n <= |w|
    ensures e in Deletions(w, n) <==> exists i: nat :: i < n && e == DeleteAt(w, i)
  {
    if n > 0 { DeletionsAre(w, n - 1, e); }
  }

  lemma {:induction false} SwapsAre(w: string, n: nat, e: string)
    requires n <= if |w| > 1 then |w| - 1 else 0
    ensures e in Swaps(w, n) <==> exists i: nat :: i < n && e == SwapAt(w, i)
  {
    if n > 0 { SwapsAre(w, n - 1, e); }
  }

  lemma {:induction false} ReplacementsAtAre(w: string, i: nat, n: nat, e: string)
    requires i < |w| && n <= 26
    ensures e in ReplacementsAt(w, i, n) <==> exists l: nat :: l < n && Letter(l) != w[i] && e == w[i := Letter(l)]
  {
    if n > 0 { ReplacementsAtAre(w, i, n - 1, e); }
  }

  lemma {:induction false} ReplacementsAre(w: string, n: nat, e: string)
    requires n <= |w|
    ensures e in Replacements(w, n) <==>
            exists i: nat, l: nat :: i < n && l < 26 && Letter(l) != w[i] && e == w[i := Letter(l)]
  {
    if n > 0 {
      ReplacementsAre(w, n - 1, e);
      ReplacementsAtAre(w, n - 1, 26, e);
    }
  }

  lemma {:induction false} InsertionsAtAre(w: string, i: nat, n: nat, e: string)
    requires i <= |w| && n <= 26
    ensures e in InsertionsAt(w, i, n) <==> exists l: nat :: l < n && e == InsertAt(w, i, Letter(l))
  {
    if n > 0 { InsertionsAtAre(w, i, n - 1, e); }
  }

  lemma {:induction false} InsertionsAre(w: string, n: nat, e: string)
    requires n <= |w| + 1
    ensures e in Insertions(w, n) <==> exists i: nat, l: nat :: i < n && l < 26 && e == InsertAt(w, i, Letter(l))
  {
    if n > 0 {
      InsertionsAre(w, n - 1, e);
      InsertionsAtAre(w, n - 1, 26, e);
    }
  }

  lemma LetterOf(c: char) returns (l: nat)
    requires Lowercase(c)
    ensures l < 26 && Letter(l) == c
  {
    l := c as int - 'a' as int;
  }

  /** The generated list holds exactly the words one edit away. */
  lemma EditsAreOneEdits(w: string, e: string)
    ensures e in Edits(w) <==> OneEdit(w, e)
  {
    DeletionsAre(w, |w|, e);
    SwapsAre(w, if |w| > 1 then |w| - 1 else 0, e);
    ReplacementsAre(w, |w|, e);
    InsertionsAre(w, |w| + 1, e);
    if i: nat, c :| i < |w| && Lowercase(c) && c != w[i] && e == w[i := c] {
      var l := LetterOf(c);
    }
    if i: nat, c :| i <= |w| && Lowercase(c) && e == InsertAt(w, i, c) {
      var l := LetterOf(c);
    }
  }

  // ---------------------------------------------------------------- how many edits there are

  ghost function OutsideAlphabet(w: string): nat {
    if w == [] then 0 else OutsideAlphabet(w[..|w| - 1]) + (if Lowercase(w[|w| - 1]) then 0 else 1)
  }

  lemma {:induction false} ReplacementsAtCount(w: string, i: nat, n: nat)
    requires i < |w| && n <= 26
    ensures |ReplacementsAt(w, i, n)| == n - (if Lowercase(w[i]) && w[i] as int - 'a' as int < n then 1 else 0)
  {
    if n > 0 { ReplacementsAtCount(w, i, n - 1); }
  }

  lemma {:induction false} ReplacementsCount(w: string, n: nat)
    requires n <= |w|
    ensures |Replacements(w, n)| == 25 * n + OutsideAlphabet(w[..n])
  {
    if n > 0 {
      ReplacementsCount(w, n - 1);
      ReplacementsAtCount(w, n - 1, 26);
      assert w[..n][..n - 1] == w[..n - 1];
    }
  }

  lemma {:induction false} SimpleCounts(w: string, n: nat)
    ensures n <= |w| ==> |Deletions(w, n)| == n
    ensures n <= (if |w| > 1 then |w| - 1 else 0) ==> |Swaps(w, n)| == n
    ensures n <= |w| + 1 ==> |Insertions(w, n)| == 26 * n
  {
    if n > 0 {
      SimpleCounts(w, n - 1);
      if n <= |w| + 1 { InsertionsAtCount(w, n - 1, 26); }
    }
  }

  lemma {:induction false} InsertionsAtCount(w: string, i: nat, n: nat)
    requires i <= |w| && n <= 26
    ensures |InsertionsAt(w, i, n)| == n
  {
    if n > 0 { InsertionsAtCount(w, i, n - 1); }
  }

  /** The size the program reserves for the list of edits. */
  function EstimatedSize(w: string): nat {
    |w| + (if |w| > 1 then |w| - 1 else 0) + |w| * 25 + (|w| + 1) * 26
  }

  /** The estimate is exact but for letters outside a to z, each of which adds one replacement. */
  lemma EditsCount(w: string)
    ensures |Edits(w)| == EstimatedSize(w) + OutsideAlphabet(w)
    ensures |w| >= 1 && OutsideAlphabet(w) == 0 ==> |Edits(w)| == 53 * |w| + 25
  {
    SimpleCounts(w, |w|);
    SimpleCounts(w, |w| + 1);
    SimpleCounts(w, if |w| > 1 then |w| - 1 else 0);
    ReplacementsCount(w, |w|);
    assert w[..|w|] == w;
  }

  // ---------------------------------------------------------------- the loops

  /** Appends with a room check folded in: the array is replaced only when the estimate is already used up. */
  ghost predicate Fits(list: GTUList<string>, capacity: nat)
    reads list
  {
    list.Valid() && list.elements.Length >= capacity
    && (list.elements.Length > capacity ==> list.size > capacity)
    && (list.size > capacity ==> list.elements.Length > capacity)
  }

  method Append(list: GTUList<string>, s: string, ghost capacity: nat)
    requires Fits(list, capacity)
    modifies list, list.elements
    ensures Fits(list, capacity) && list.Items() == old(list.Items()) + [s]
    ensures list.elements == old(list.elements) || fresh(list.elements)
  {
    list.Add(s);
  }

  method AppendReplacements(word: string, i: nat, list: GTUList<string>, ghost capacity: nat)
    requires i < |word| && Fits(list, capacity)
    modifies list, list.elements
    ensures Fits(list, capacity) && list.Items() == old(list.Items()) + ReplacementsAt(word, i, 26)
    ensures list.elements == old(list.elements) || fresh(list.elements)
  {
    for l := 0 to 26
      invariant Fits(list, capacity) && list.Items() == old(list.Items()) + ReplacementsAt(word, i, l)
      invariant list.elements == old(list.elements) || fresh(list.elements)
    {
      if Letter(l) != word[i] {
        Append(list, word[i := Letter(l)], capacity);
      }
    }
  }

  method AppendInsertions(word: string, i: nat, list: GTUList<string>, ghost capacity: nat)
    requires i <= |word| && Fits(list, capacity)
    modifies list, list.elements
    ensures Fits(list, capacity) && list.Items() == old(list.Items()) + InsertionsAt(word, i, 26)
    ensures list.elements == old(list.elements) || fresh(list.elements)
  {
    for l := 0 to 26
      invariant Fits(list, capacity) && list.Items() == old(list.Items()) + InsertionsAt(word, i, l)
      invariant list.elements == old(list.elements) || fresh(list.elements)
    {
      Append(list, InsertAt(word, i, Letter(l)), capacity);
    }
  }

  method AppendDeletionsAndSwaps(word: string, list: GTUList<string>, ghost capacity: nat)
    requires Fits(list, capacity)
    modifies list, list.elements
    ensures Fits(list, capacity)
    ensures list.Items() == old(list.Items()) + Deletions(word, |word|) + Swaps(word, if |word| > 1 then |word| - 1 else 0)
    ensures list.elements == old(list.elements) || fresh(list.elements)
  {
    for i := 0 to |word|
      invariant Fits(list, capacity) && list.Items() == old(list.Items()) + Deletions(word, i)
      invariant list.elements == old(list.elements) || fresh(list.elements)
    {
      Append(list, DeleteAt(word, i), capacity);
    }
    ghost var done := list.Items();
    for i := 0 to if |word| > 1 then |word| - 1 else 0
      invariant Fits(list, capacity) && list.Items() == done + Swaps(word, i)
      invariant list.elements == old(list.elements) || fresh(list.elements)
    {
      Append(list, SwapAt(word, i), capacity);
    }
  }

  method AppendAllReplacements(word: string, list: GTUList<string>, ghost capacity: nat)
    requires Fits(list, capacity)
    modifies list, list.elements
    ensures Fits(list, capacity) && list.Items() == old(list.Items()) + Replacements(word, |word|)
    ensures list.elements == old(list.elements) || fresh(list.elements)
  {
    for i := 0 to |word|
      invariant Fits(list, capacity) && list.Items() == old(list.Items()) + Replacements(word, i)
      invariant list.elements == old(list.elements) || fresh(list.elements)
    {
      ghost var before := list.Items();
      AppendReplacements(word, i, list, capacity);
      assert list.Items() == before + ReplacementsAt(word, i, 26);
    }
  }

  method AppendAllInsertions(word: string, list: GTUList<string>, ghost capacity: nat)
    requires Fits(list, capacity)
    modifies list, list.elements
    ensures Fits(list, capacity) && list.Items() == old(list.Items()) + Insertions(word, |word| + 1)
    ensures list.elements == old(list.elements) || fresh(list.elements)
  {
    for i := 0 to |word| + 1
      invariant Fits(list, capacity) && list.Items() == old(list.Items()) + Insertions(word, i)
      invariant list.elements == old(list.elements) || fresh(list.elements)
    {
      AppendInsertions(word, i, list, capacity);
    }
  }

  /**
    Lists every edit of the word. The array reserved up front is never replaced, exactly when the word has
    no character outside a to z.
   */
  method GenerateEditDistance(word: string) returns (result: GTUList<string>)
    ensures fresh(result) && fresh(result.elements) && result.Valid()
    ensures result.Items() == Edits(word)
    ensures result.elements.Length == EstimatedSize(word) <==> OutsideAlphabet(word) == 0
  {
    EditsCount(word);
    var estimatedSize := EstimatedSize(word);
    result := new GTUList(if estimatedSize >= 10 then estimatedSize else 10);
    AppendDeletionsAndSwaps(word, result, estimatedSize);
    AppendAllReplacements(word, result, estimatedSize);
    AppendAllInsertions(word, result, estimatedSize);
    assert |result.Items()| == |Edits(word)|;
  }

  // ---------------------------------------------------------------- suggestions

  /** A dictionary word reachable by one edit, or by two. */
  ghost predicate Near(word: string, w: string) {
    OneEdit(word, w) || exists m :: OneEdit(word, m) && OneEdit(m, w)
  }

  ghost predicate Separated(a: GTUHashSet<string>, b: GTUHashSet<string>)
    reads a, a.map_, b, b.map_
  {
    a != b && a.map_ != b.map_ && a.map_.table != b.map_.table
  }

  /** What the checker needs of a helper set: it may forget words, but it never reports one it was not given. */
  method Remember(helper: GTUHashSet<string>, w: string) returns (isNew: bool)
    requires helper.Valid()
    modifies helper, helper.map_, helper.map_.table
    ensures helper.Valid() && (helper.map_.table == old(helper.map_.table) || fresh(helper.map_.table))
    ensures isNew <==> w !in old(helper.members)
    ensures helper.members <= old(helper.members) + {w}
  {
    KeysOfPut(helper.map_.State(), helper.map_.hashCode, w, ());
    var accepted, added := helper.Add(Some(w));
    return added;
  }

  /** Suggests one word and remembers it in the helper set. */
  method Suggest(w: string, seen: GTUHashSet<string>, suggestions: GTUList<string>)
    requires seen.Valid() && suggestions.Valid()
    modifies seen, seen.map_, seen.map_.table, suggestions, suggestions.elements
    ensures seen.Valid() && suggestions.Valid()
    ensures seen.map_.table == old(seen.map_.table) || fresh(seen.map_.table)
    ensures suggestions.elements == old(suggestions.elements) || fresh(suggestions.elements)
    ensures suggestions.Items() == old(suggestions.Items()) + [w]
    ensures seen.members <= old(seen.members) + {w}
  {
    suggestions.Add(w);
    var isNew := Remember(seen, w);
  }

  /** Suggests a dictionary word unless the helper set is consulted and reports it. */
  method Consider(w: string, dictionary: GTUHashSet<string>, seen: GTUHashSet<string>,
                  suggestions: GTUList<string>, skipSeen: bool)
    requires dictionary.Valid() && seen.Valid() && suggestions.Valid()
    modifies seen, seen.map_, seen.map_.table, suggestions, suggestions.elements
    ensures seen.Valid() && suggestions.Valid()
    ensures seen.map_.table == old(seen.map_.table) || fresh(seen.map_.table)
    ensures suggestions.elements == old(suggestions.elements) || fresh(suggestions.elements)
    ensures var skipped := w !in old(dictionary.members) || (skipSeen && w in old(seen.members));
            && suggestions.Items() == old(suggestions.Items()) + (if skipped then [] else [w])
            && seen.members <= old(seen.members) + (if skipped then {} else {w})
  {
    var known := dictionary.Contains(Some(w));
    if !known { return; }
    if skipSeen {
      var reported := seen.Contains(Some(w));
      if reported { return; }
    }
    Suggest(w, seen, suggestions);
  }

  /** The words the helper set reports have all been suggested; it may have forgotten some. */
  ghost predicate NoFalseReports(seen: set<string>, suggested: seq<string>) {
    forall w :: w in seen ==> w in suggested
  }

  ghost predicate SuggestedExactly(suggested: seq<string>, before: seq<string>, candidates: seq<string>, dict: set<string>) {
    forall w :: w in suggested <==> w in before || (w in candidates && w in dict)
  }

  lemma SuggestedStep(suggested: seq<string>, suggested': seq<string>, before: seq<string>,
                      candidates: seq<string>, w: string, dict: set<string>, seen: set<string>, skipSeen: bool)
    requires SuggestedExactly(suggested, before, candidates, dict) && NoFalseReports(seen, suggested)
    requires suggested' == suggested + if w !in dict || (skipSeen && w in seen) then [] else [w]
    ensures SuggestedExactly(suggested', before, candidates + [w], dict)
  {}

  lemma TakeOneMore<T>(s: seq<T>, i: nat)
    requires i < |s|
    ensures s[..i + 1] == s[..i] + [s[i]]
  {}

  lemma TakeAll<T>(s: seq<T>)
    ensures s[..|s|] == s
  {}

  /** One candidate of the loop below. */
  method ConsiderNext(candidates: seq<string>, i: nat, dictionary: GTUHashSet<string>, seen: GTUHashSet<string>,
                      suggestions: GTUList<string>, skipSeen: bool, ghost before: seq<string>)
    requires i < |candidates| && dictionary.Valid() && seen.Valid() && suggestions.Valid() && Separated(dictionary, seen)
    requires NoFalseReports(seen.members, suggestions.Items())
    requires SuggestedExactly(suggestions.Items(), before, candidates[..i], dictionary.members)
    modifies seen, seen.map_, seen.map_.table, suggestions, suggestions.elements
    ensures seen.Valid() && suggestions.Valid()
    ensures seen.map_.table == old(seen.map_.table) || fresh(seen.map_.table)
    ensures suggestions.elements == old(suggestions.elements) || fresh(suggestions.elements)
    ensures NoFalseReports(seen.members, suggestions.Items())
    ensures SuggestedExactly(suggestions.Items(), before, candidates[..i + 1], old(dictionary.members))
  {
    ghost var reported, suggested, dict := seen.members, suggestions.Items(), dictionary.members;
    Consider(candidates[i], dictionary, seen, suggestions, skipSeen);
    SuggestedStep(suggested, suggestions.Items(), before, candidates[..i], candidates[i], dict, reported, skipSeen);
    TakeOneMore(candidates, i);
  }

  /** The loop over a list of edits. */
  method AddNewWords(candidates: seq<string>, dictionary: GTUHashSet<string>, seen: GTUHashSet<string>,
                     suggestions: GTUList<string>, skipSeen: bool)
    requires dictionary.Valid() && seen.Valid() && suggestions.Valid() && Separated(dictionary, seen)
    requires NoFalseReports(seen.members, suggestions.Items())
    modifies seen, seen.map_, seen.map_.table, suggestions, suggestions.elements
    ensures seen.Valid() && suggestions.Valid()
    ensures seen.map_.table == old(seen.map_.table) || fresh(seen.map_.table)
    ensures suggestions.elements == old(suggestions.elements) || fresh(suggestions.elements)
    ensures NoFalseReports(seen.members, suggestions.Items())
    ensures SuggestedExactly(suggestions.Items(), old(suggestions.Items()), candidates, old(dictionary.members))
  {
    for i := 0 to |candidates|
      invariant seen.Valid() && suggestions.Valid()
      invariant unchanged(dictionary) && unchanged(dictionary.map_) && unchanged(dictionary.map_.table)
      invariant seen.map_.table == old(seen.map_.table) || fresh(seen.map_.table)
      invariant suggestions.elements == old(suggestions.elements) || fresh(suggestions.elements)
      invariant NoFalseReports(seen.members, suggestions.Items())
      invariant SuggestedExactly(suggestions.Items(), old(suggestions.Items()), candidates[..i], old(dictionary.members))
    {
      dictionary.StaysValid();
      ConsiderNext(candidates, i, dictionary, seen, suggestions, skipSeen, old(suggestions.Items()));
    }
    TakeAll(candidates);
  }

  /** Suggests the dictionary words one edit away from edit1_word. */
  method AddSecondEdits(edit1: string, dictionary: GTUHashSet<string>, seen: GTUHashSet<string>,
                        suggestions: GTUList<string>)
    requires dictionary.Valid() && seen.Valid() && suggestions.Valid() && Separated(dictionary, seen)
    requires NoFalseReports(seen.members, suggestions.Items())
    modifies seen, seen.map_, seen.map_.table, suggestions, suggestions.elements
    ensures seen.Valid() && suggestions.Valid()
    ensures seen.map_.table == old(seen.map_.table) || fresh(seen.map_.table)
    ensures suggestions.elements == old(suggestions.elements) || fresh(suggestions.elements)
    ensures NoFalseReports(seen.members, suggestions.Items())
    ensures SuggestedExactly(suggestions.Items(), old(suggestions.Items()), Edits(edit1), old(dictionary.members))
  {
    var edits2 := GenerateEditDistance(edit1);
    AddNewWords(edits2.elements[..edits2.size], dictionary, seen, suggestions, true);
  }

  /** Everything suggested after the first pass and after the second edits of the given words. */
  ghost predicate SuggestedThrough(suggested: seq<string>, edits1: seq<string>, done: seq<string>, dict: set<string>) {
    forall w :: w in suggested <==> w in dict && (w in edits1 || exists m :: m in done && w in Edits(m))
  }

  lemma ThroughStart(suggested: seq<string>, edits1: seq<string>, dict: set<string>)
    requires SuggestedExactly(suggested, [], edits1, dict)
    ensures SuggestedThrough(suggested, edits1, [], dict)
  {}

  lemma ThroughIsNear(suggested: seq<string>, word: string, dict: set<string>, w: string)
    requires SuggestedThrough(suggested, Edits(word), Edits(word), dict)
    ensures w in suggested <==> w in dict && Near(word, w)
  {
    EditsAreOneEdits(word, w);
    if m :| m in Edits(word) && w in Edits(m) {
      EditsAreOneEdits(word, m);
      EditsAreOneEdits(m, w);
    }
    if m :| OneEdit(word, m) && OneEdit(m, w) {
      EditsAreOneEdits(word, m);
      EditsAreOneEdits(m, w);
    }
  }

  /** One round of the second pass: an edit the processed set reports is skipped. */
  method ProcessEdit(edit1: string, dictionary: GTUHashSet<string>, seen: GTUHashSet<string>,
                     processedEdit: GTUHashSet<string>, suggestions: GTUList<string>)
    requires dictionary.Valid() && seen.Valid() && processedEdit.Valid() && suggestions.Valid()
    requires Separated(dictionary, seen) && Separated(dictionary, processedEdit) && Separated(processedEdit, seen)
    requires NoFalseReports(seen.members, suggestions.Items())
    modifies seen, seen.map_, seen.map_.table, processedEdit, processedEdit.map_, processedEdit.map_.table,
             suggestions, suggestions.elements
    ensures seen.Valid() && processedEdit.Valid() && suggestions.Valid() && Separated(processedEdit, seen)
    ensures seen.map_.table == old(seen.map_.table) || fresh(seen.map_.table)
    ensures processedEdit.map_.table == old(processedEdit.map_.table) || fresh(processedEdit.map_.table)
    ensures suggestions.elements == old(suggestions.elements) || fresh(suggestions.elements)
    ensures NoFalseReports(seen.members, suggestions.Items())
    ensures processedEdit.members <= old(processedEdit.members) + {edit1}
    ensures if edit1 in old(processedEdit.members) then suggestions.Items() == old(suggestions.Items())
            else SuggestedExactly(suggestions.Items(), old(suggestions.Items()), Edits(edit1), old(dictionary.members))
  {
    var isNew := Remember(processedEdit, edit1);
    assert unchanged(dictionary.map_) && unchanged(dictionary.map_.table);
    assert unchanged(seen.map_) && unchanged(seen.map_.table);
    label Remembered:
    if isNew {
      AddSecondEdits(edit1, dictionary, seen, suggestions);
      processedEdit.StaysValid@Remembered();
    }
  }

  lemma ThroughStep(suggested: seq<string>, suggested': seq<string>, edits1: seq<string>, i: nat,
                    processed: set<string>, dict: set<string>)
    requires i < |edits1| && SuggestedThrough(suggested, edits1, edits1[..i], dict)
    requires NoFalseReports(processed, edits1[..i])
    requires if edits1[i] in processed then suggested' == suggested
             else SuggestedExactly(suggested', suggested, Edits(edits1[i]), dict)
    ensures SuggestedThrough(suggested', edits1, edits1[..i + 1], dict)
  {}

  lemma ReportsGrow(processed: set<string>, processed': set<string>, edits1: seq<string>, i: nat)
    requires i < |edits1| && NoFalseReports(processed, edits1[..i]) && processed' <= processed + {edits1[i]}
    ensures NoFalseReports(processed', edits1[..i + 1])
  {}

  /** The second pass over the list of edits, guarded by the set of edits already processed. */
  method AddAllSecondEdits(edits1: seq<string>, dictionary: GTUHashSet<string>, seen: GTUHashSet<string>,
                           suggestions: GTUList<string>, hashCode: string -> bv32)
    requires dictionary.Valid() && seen.Valid() && suggestions.Valid() && Separated(dictionary, seen)
    requires NoFalseReports(seen.members, suggestions.Items())
    requires SuggestedExactly(suggestions.Items(), [], edits1, dictionary.members)
    modifies seen, seen.map_, seen.map_.table, suggestions, suggestions.elements
    ensures suggestions.Valid()
    ensures SuggestedThrough(suggestions.Items(), edits1, edits1, old(dictionary.members))
  {
    ghost var dict := dictionary.members;
    var processedEdit := new GTUHashSet(hashCode);
    ThroughStart(suggestions.Items(), edits1, dict);
    for i := 0 to |edits1|
      invariant unchanged(dictionary) && unchanged(dictionary.map_) && unchanged(dictionary.map_.table)
      invariant seen.Valid() && suggestions.Valid() && processedEdit.Valid()
      invariant seen.map_.table == old(seen.map_.table) || fresh(seen.map_.table)
      invariant suggestions.elements == old(suggestions.elements) || fresh(suggestions.elements)
      invariant fresh(processedEdit.map_) && fresh(processedEdit.map_.table) && Separated(processedEdit, seen)
      invariant NoFalseReports(seen.members, suggestions.Items())
      invariant NoFalseReports(processedEdit.members, edits1[..i])
      invariant SuggestedThrough(suggestions.Items(), edits1, edits1[..i], dict)
    {
      ghost var suggested, processed := suggestions.Items(), processedEdit.members;
      ProcessEdit(edits1[i], dictionary, seen, processedEdit, suggestions);
      ThroughStep(suggested, suggestions.Items(), edits1, i, processed, dict);
      ReportsGrow(processed, processedEdit.members, edits1, i);
    }
    TakeAll(edits1);
  }

  /**
    As a set, the suggestions are the dictionary words one or two edits away. The helper sets are hash sets
    that may forget entries; that only costs repeated suggestions.
   */
  method GetSuggestions(word: string, dictionary: GTUHashSet<string>, hashCode: string -> bv32)
    returns (suggestions: GTUList<string>)
    requires dictionary.Valid()
    ensures fresh(suggestions) && suggestions.Valid()
    ensures forall w :: w in suggestions.Items() <==> w in dictionary.members && Near(word, w)
  {
    suggestions := new GTUList(10);
    var uniqueWords := new GTUHashSet(hashCode);
    var edits := GenerateEditDistance(word);
    var edits1 := edits.elements[..edits.size];
    AddNewWords(edits1, dictionary, uniqueWords, suggestions, false);
    AddAllSecondEdits(edits1, dictionary, uniqueWords, suggestions, hashCode);
    forall w ensures w in suggestions.Items() <==> w in dictionary.members && Near(word, w) {
      ThroughIsNear(suggestions.Items(), word, dictionary.members, w);
    }
  }
}
