/**
  * The word browser: the loaded word list filtered by length bounds and a
  * query (a `_` wildcard pattern, or a prefix, suffix or substring
  * according to the selected mode), shown fifty words to a page with
  * previous/next buttons.
  */
module Dictionary {
  import opened Wrappers
  import opened Text

  const PageSize: nat := 50

  // ---------------------------------------------------------------------
  // The filter

  /** `parseInt(minLenInput.value) || 1`: an unparsable field (`None`, for
      NaN) or zero gives 1; any other number, negative ones included, is
      kept. */
  function MinLenOf(field: Option<int>): (r: int)
    ensures r != 0
    ensures field.None? || field.value == 0 ==> r == 1
    ensures field.Some? && field.value != 0 ==> r == field.value
  {
    if field.None? || field.value == 0 then 1 else field.value
  }

  /** `maxLenVal > 0 ? maxLenVal : Infinity`: `None` is no upper bound. */
  function MaxLenOf(field: Option<int>): (r: Option<nat>)
    ensures r.Some? <==> field.Some? && field.value > 0
    ensures r.Some? ==> r.value == field.value
  {
    if field.Some? && field.value > 0 then Some(field.value) else None
  }

  /** The characters a regular-expression `.` does not match: the line
      terminators of section 22.2.2 of ECMA-262. */
  predicate IsLineTerminator(c: char)
  {
    c == '\n' || c == '\r' || c == '\U{2028}' || c == '\U{2029}'
  }

  /** `new RegExp('^' + escaped + '$').test(word)`: every character but `_`
      is escaped and so matches itself, and `_` became `.`, which matches
      any one character except a line terminator; the pattern is anchored
      at both ends.  Matched character by character, as the engine does. */
  predicate PatternMatch(word: string, query: string): (b: bool)
    ensures b ==> |word| == |query|
    decreases |query|
  {
    if query == [] then word == []
    else
      && word != []
      && (if query[0] == '_' then !IsLineTerminator(word[0]) else word[0] == query[0])
      && PatternMatch(word[1..], query[1..])
  }

  /** A wildcard query matches exactly the words of its length that agree
      with it wherever it has no `_`, and have no line terminator where it
      has one. */
  lemma {:induction false} PatternMatchIff(word: string, query: string)
    ensures PatternMatch(word, query) <==>
            |word| == |query| &&
            forall i :: 0 <= i < |query| ==>
              (if query[i] == '_' then !IsLineTerminator(word[i]) else word[i] == query[i])
    decreases |query|
  {
    if query != [] && word != [] {
      PatternMatchIff(word[1..], query[1..]);
      var q, w := query, word;
      if |w| == |q| {
        forall i | 0 <= i < |q| - 1
          ensures (q[1..][i] == '_' ==> !IsLineTerminator(w[1..][i])) && (q[1..][i] != '_' ==> w[1..][i] == q[1..][i])
                  <==> (q[i + 1] == '_' ==> !IsLineTerminator(w[i + 1])) && (q[i + 1] != '_' ==> w[i + 1] == q[i + 1])
        {
        }
        if forall i :: 0 <= i < |q| ==> (if q[i] == '_' then !IsLineTerminator(w[i]) else w[i] == q[i]) {
          assert forall i :: 0 <= i < |q[1..]| ==>
                   (if q[1..][i] == '_' then !IsLineTerminator(w[1..][i]) else w[1..][i] == q[1..][i]) by {
            forall i | 0 <= i < |q[1..]|
              ensures (if q[1..][i] == '_' then !IsLineTerminator(w[1..][i]) else w[1..][i] == q[1..][i])
            {
              assert q[1..][i] == q[i + 1] && w[1..][i] == w[i + 1];
            }
          }
        }
        if PatternMatch(w, q) {
          forall i | 0 <= i < |q|
            ensures (if q[i] == '_' then !IsLineTerminator(w[i]) else w[i] == q[i])
          {
            if i > 0 {
              assert q[1..][i - 1] == q[i] && w[1..][i - 1] == w[i];
            }
          }
        }
      }
    }
  }

  /** The test `applyFilters` applies to each word: the length bounds,
      then an empty query keeps everything, a query with `_` is a whole-word
      pattern, and otherwise the selected mode decides. */
  predicate Keep(word: string, query: string, minLen: int, maxLen: Option<nat>, mode: string): (b: bool)
    ensures query == "" ==> (b <==> minLen <= |word| && (maxLen.None? || |word| <= maxLen.value))
    ensures b && Contains(query, "_") ==> |word| == |query|
  {
    if |word| < minLen || (maxLen.Some? && |word| > maxLen.value) then false
    else if query == "" then true
    else if Contains(query, "_") then PatternMatch(word, query)
    else if mode == "startsWith" then StartsWith(word, query)
    else if mode == "endsWith" then EndsWith(word, query)
    else Contains(word, query)
  }

  /** `allWords.filter(keep)`. */
  function Filter(words: seq<string>, query: string, minLen: int, maxLen: Option<nat>, mode: string): (r: seq<string>)
    ensures |r| <= |words|
  {
    if words == [] then []
    else
      var init, last := words[..|words| - 1], words[|words| - 1];
      Filter(init, query, minLen, maxLen, mode) + (if Keep(last, query, minLen, maxLen, mode) then [last] else [])
  }

  /** `sub` picks out elements of `s` in order: `idx` gives, for each
      element of `sub`, its position in `s`, and the positions increase. */
  predicate PicksInOrder(sub: seq<string>, s: seq<string>, idx: seq<nat>)
  {
    && |idx| == |sub|
    && (forall k :: 0 <= k < |idx| ==> idx[k] < |s| && sub[k] == s[idx[k]])
    && (forall k, l :: 0 <= k < l < |idx| ==> idx[k] < idx[l])
  }

  /** The filtered list is the kept words of the list, in their order:
      a word is in it exactly when it is a kept word of the list, the
      positions it is taken from increase, and every position holding a
      kept word is taken (so repeated lines are all kept). */
  lemma {:induction false} FilterSpec(words: seq<string>, query: string, minLen: int, maxLen: Option<nat>, mode: string)
    returns (idx: seq<nat>)
    ensures PicksInOrder(Filter(words, query, minLen, maxLen, mode), words, idx)
    ensures forall w :: w in Filter(words, query, minLen, maxLen, mode) <==> w in words && Keep(w, query, minLen, maxLen, mode)
    ensures forall i :: 0 <= i < |words| && Keep(words[i], query, minLen, maxLen, mode) ==> i in idx
  {
    if words == [] {
      idx := [];
    } else {
      var init, last := words[..|words| - 1], words[|words| - 1];
      var sub := FilterSpec(init, query, minLen, maxLen, mode);
      assert words == init + [last];
      if Keep(last, query, minLen, maxLen, mode) {
        idx := sub + [|words| - 1];
      } else {
        idx := sub;
      }
      forall i | 0 <= i < |words| && Keep(words[i], query, minLen, maxLen, mode)
        ensures i in idx
      {
        if i < |init| {
          assert words[i] == init[i];
        }
      }
    }
  }

  /** When every word passes, filtering gives back the whole list, as the
      unfiltered `[...allWords]` shown after loading. */
  lemma {:induction false} FilterKeepsAll(words: seq<string>, query: string, minLen: int, maxLen: Option<nat>, mode: string)
    requires forall i :: 0 <= i < |words| ==> Keep(words[i], query, minLen, maxLen, mode)
    ensures Filter(words, query, minLen, maxLen, mode) == words
  {
    if words != [] {
      var init := words[..|words| - 1];
      assert forall i :: 0 <= i < |init| ==> init[i] == words[i];
      FilterKeepsAll(init, query, minLen, maxLen, mode);
      assert words == init + [words[|words| - 1]];
    }
  }

  /** A kept word respects the length bounds. */
  lemma KeepBounds(word: string, query: string, minLen: int, maxLen: Option<nat>, mode: string)
    requires Keep(word, query, minLen, maxLen, mode)
    ensures minLen <= |word| && (maxLen.Some? ==> |word| <= maxLen.value)
  {
  }

  /** In every mode the kept words contain the query: the prefix and
      suffix modes keep a subset of what the substring mode keeps. */
  lemma KeepContains(word: string, query: string, minLen: int, maxLen: Option<nat>, mode: string)
    requires Keep(word, query, minLen, maxLen, mode) && !Contains(query, "_")
    ensures Contains(word, query)
    ensures Keep(word, query, minLen, maxLen, "contains")
  {
    if query != "" && mode == "startsWith" {
      assert OccursAt(word, query, 0);
    } else if query != "" && mode == "endsWith" {
      assert OccursAt(word, query, |word| - |query|);
    } else if query == "" {
      assert OccursAt(word, query, 0);
    }
  }

  // ---------------------------------------------------------------------
  // Paging

  /** `Math.ceil(total / PAGE_SIZE)` */
  function CeilPages(total: nat): (p: nat)
    ensures total <= p * PageSize && (p == 0 || (p - 1) * PageSize < total)
  {
    (total + PageSize - 1) / PageSize
  }

  /** `Math.max(1, Math.ceil(total / PAGE_SIZE))`: at least one page,
      however few words. */
  function TotalPages(total: nat): (p: nat)
    ensures p >= 1 && total <= p * PageSize
    ensures total > 0 ==> (p - 1) * PageSize < total
  {
    var c := CeilPages(total);
    if c < 1 then 1 else c
  }

  /** `filteredWords.slice(start, start + PAGE_SIZE)`, `slice` clamping
      both ends to the list. */
  function PageWords(words: seq<string>, page: nat): (r: seq<string>)
    ensures |r| <= PageSize
    ensures page * PageSize <= |words| ==> r <= words[page * PageSize..]
    ensures page < TotalPages(|words|) && words != [] ==> r != []
  {
    var start := page * PageSize;
    var lo := if start < |words| then start else |words|;
    var hi := if start + PageSize < |words| then start + PageSize else |words|;
    words[lo..hi]
  }

  /** The pages cover the list: word `k` is item `k % 50` of page
      `k / 50`, a page that exists. */
  lemma PagesCover(words: seq<string>, k: nat)
    requires k < |words|
    ensures k / PageSize < TotalPages(|words|)
    ensures |PageWords(words, k / PageSize)| > k % PageSize
    ensures PageWords(words, k / PageSize)[k % PageSize] == words[k]
  {
    var p := k / PageSize;
    assert p * PageSize <= k < p * PageSize + PageSize;
  }

  // ---------------------------------------------------------------------
  // The browser

  /** The module variables of the browser page. */
  class Browser {
    var allWords: seq<string>
    var filteredWords: seq<string>
    var currentPage: nat
    var selectedMode: string
    /** Where each filtered word sits in the loaded list. */
    ghost var Picks: seq<nat>

    /** The page shown exists, and the filtered list is taken from the
        loaded list in order. */
    ghost predicate Valid()
      reads this
    {
      && currentPage < TotalPages(|filteredWords|)
      && PicksInOrder(filteredWords, allWords, Picks)
    }

    /** The page once the list is loaded: every word, the first page, the
        prefix mode. */
    constructor (words: seq<string>)
      ensures Valid()
      ensures allWords == words && filteredWords == words && currentPage == 0 && selectedMode == "startsWith"
    {
      allWords := words;
      filteredWords := words;
      currentPage := 0;
      selectedMode := "startsWith";
      Picks := seq(|words|, i => i);
    }

    /** `applyFilters`, given the raw text of the query field and the
        parsed length fields: refilter the whole list and go back to the
        first page. */
    method ApplyFilters(queryField: string, minLenField: Option<int>, maxLenField: Option<int>)
      requires Valid()
      modifies this
      ensures Valid()
      ensures allWords == old(allWords) && selectedMode == old(selectedMode)
      ensures filteredWords == Filter(allWords, Lower(Trim(queryField)), MinLenOf(minLenField), MaxLenOf(maxLenField), selectedMode)
      ensures currentPage == 0
    {
      var rawQuery := Lower(Trim(queryField));
      var minLen := MinLenOf(minLenField);
      var maxLen := MaxLenOf(maxLenField);
      filteredWords := Filter(allWords, rawQuery, minLen, maxLen, selectedMode);
      Picks := FilterSpec(allWords, rawQuery, minLen, maxLen, selectedMode);
      currentPage := 0;
    }

    /** A mode button: store the mode and refilter. */
    method SelectMode(mode: string, queryField: string, minLenField: Option<int>, maxLenField: Option<int>)
      requires Valid()
      modifies this
      ensures Valid()
      ensures allWords == old(allWords) && selectedMode == mode
      ensures filteredWords == Filter(allWords, Lower(Trim(queryField)), MinLenOf(minLenField), MaxLenOf(maxLenField), mode)
      ensures currentPage == 0
    {
      selectedMode := mode;
      ApplyFilters(queryField, minLenField, maxLenField);
    }

    /** The words `renderPage` shows. */
    function ShownWords(): (r: seq<string>)
      reads this
      requires Valid()
      ensures |r| <= PageSize
      ensures filteredWords != [] ==> r != [] && r <= filteredWords[currentPage * PageSize..]
    {
      PageWords(filteredWords, currentPage)
    }

    /** The previous-page button: back one page unless on the first. */
    method Prev()
      requires Valid()
      modifies this
      ensures Valid()
      ensures allWords == old(allWords) && filteredWords == old(filteredWords) && selectedMode == old(selectedMode)
      ensures currentPage == if old(currentPage) > 0 then old(currentPage) - 1 else old(currentPage)
    {
      if currentPage > 0 {
        currentPage := currentPage - 1;
      }
    }

    /** The next-page button: on one page unless on the last. */
    method Next()
      requires Valid()
      modifies this
      ensures Valid()
      ensures allWords == old(allWords) && filteredWords == old(filteredWords) && selectedMode == old(selectedMode)
      ensures currentPage == if old(currentPage) + 1 < TotalPages(|filteredWords|) then old(currentPage) + 1 else old(currentPage)
    {
      var totalPages: int := CeilPages(|filteredWords|);
      if currentPage < totalPages - 1 {
        currentPage := currentPage + 1;
      }
    }
  }
}
