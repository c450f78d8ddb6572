# Boggle trainer core, modelled in Dafny

This project models the logic core of a browser Boggle trainer. On an
R×C grid of letter dice, a word is traced through 8-directionally adjacent
cells, and no cell is used twice. A die may show two letters ("Qu"). The model covers:

- **Grid** (`grid.dfy`): the adjacency test used by cell taps. It also covers the
  adjacency lists `buildAdjacency` computes, with their per-size cache.
- **Trie and word solver** (`trie.dfy`, `word_solver.dfy`): `loadWordList` builds
  a trie of the lower-cased, trimmed words of length ≥ 3. `solveGrid` runs a
  depth-first search from every cell. It walks the trie one die at a time and
  collects every word of at least `minWordLen` letters. `findWordPaths` lists
  every path that spells a given word.
- **Word validator** (`word_validator.dfy`): `validateInput` upper-cases what the
  player typed and explores the grid. It records the paths that spell the whole
  input ("complete") and the dead-end paths that spell only a prefix ("partial").
  The status is empty, valid or invalid.
- **Game state** (`game_state.dfy`): the session. It holds the setup choices
  (grid size, difficulty, duration, minimum word length), the current game
  (grid, all words, found words, score) and the phase. The module also covers
  scoring and the score-ordered word lists.
- **Dictionary browser** (`dictionary.dfy`): the filter over the word list. The
  query is a prefix, suffix, substring or `_` wildcard pattern, bounded by a
  minimum and a maximum length. Results are shown 50 words per page.
- **Input controller** (`app.dfy`): the tap path with its adjacency and
  no-reuse rules, deleting the last tapped die, keyboard edits, submitting a word
  (history, sweep detection) and moving through the input history.

Supporting modules: `text.dfy` holds ASCII case mapping, trimming and the string
predicates. `board.dfy` holds paths, trails, visited sets and spelling a path.
`wrappers.dfy` holds `Option` and `Result`.

The recursive searches are specified by functions that mirror the recursion.
`SolveFrom`/`SolveNbrs` specify the solver, `MatchFrom`/`MatchNbrs` specify the
path finder and `ExploreFrom`/`ExploreNbrs` specify the validator. The
imperative searches work over an `array<bool>` of visited cells. They are proved
to compute exactly these functions and to restore `visited` on return. Separate
lemmas relate the functions to an independent definition: a word is found iff it
is in the list, is long enough and can be traced on the board.

## Model

| member | source | states |
|---|---|---|
| Grid.IsAdjacent | js/app.js:323-327 | distinct cells whose rows and columns each differ by at most one; their indices are then at most `cols + 1` apart; with no columns nothing is adjacent (JavaScript divides by zero and gets NaN) |
| Grid.IndexDistance | js/app.js:323-327 | cells at most one row and one column apart have indices at most `cols + 1` apart |
| Grid.NeighboursAreAdjacent | js/gridGenerator.js:88-102 | the generated neighbour list of a cell holds exactly the on-board cells that `isAdjacent` accepts |
| Grid.NotOwnNeighbour | js/gridGenerator.js:94 | a cell is never its own neighbour |
| Grid.NeighboursSymmetric | js/gridGenerator.js:92-99 | adjacency lists are symmetric |
| Grid.NeighboursSorted | js/gridGenerator.js:92-99 | each neighbour list is strictly increasing (row-major scan order), hence duplicate-free and in bounds |
| Grid.Adjacency | js/gridGenerator.js:87-102 | one list per cell, every entry a valid cell index |
| Grid.CellNeighbours | js/gridGenerator.js:90-100 | the dr/dc loop builds exactly the specified neighbour list of cell (r, c) |
| Grid.TwoByTwoCorner | js/gridGenerator.js:87-102 | worked example: cell 0 of a 2 by 2 board has neighbours `[1, 2, 3]` |
| Grid.ThreeByThreeCentre | js/gridGenerator.js:87-102 | worked example: the centre of a 3 by 3 board has all eight other cells as neighbours, in order |
| Grid.ThreeByThreeEdge | js/gridGenerator.js:87-102 | worked example: cell 5 of a 3 by 3 board has neighbours `[1, 2, 4, 7, 8]` |
| Grid.AdjacencyCache.constructor | js/gridGenerator.js:77 | the cache starts empty |
| Grid.AdjacencyCache.BuildAdjacency | js/gridGenerator.js:84-105 | returns the adjacency of the size; a cached size leaves the cache unchanged, otherwise the new entry is stored |
| Trie.Descend | js/wordSolver.js:62-66 | following the characters of a string edge by edge from a node either fails at a missing edge or reaches a node of the trie |
| Trie.Trie.constructor | js/wordSolver.js:24 | `new TrieNode()`: a single root node, no words, and the trie invariant holds |
| Trie.Walk | js/wordSolver.js:62-66 | the character-by-character trie walk ends at the node `Descend` names, or fails exactly when some edge is missing |
| Trie.DescendSpells | js/wordSolver.js:62-66 | walking a string from a node succeeds iff the node's label extended by that string is in the trie, and lands on that label |
| Trie.WordIsMarked | js/wordSolver.js:28-33 | a string is an inserted word iff walking it from the root succeeds at a node marked as a word |
| Trie.PruneOnlyDeadPrefixes | js/wordSolver.js:64 | when the walk fails, no inserted word has that prefix, so abandoning the search loses nothing |
| Trie.Trie.AddChild | js/wordSolver.js:30 | adds one fresh child under the given edge character; earlier nodes and the word set are unchanged |
| Trie.Trie.Insert | js/wordSolver.js:28-33 | inserting a word adds exactly that word to the trie's word set and keeps the trie invariant |
| Board.SpellLowered | js/wordSolver.js:59 | spelling a path over lower-cased dice is the lower-case of the spelling |
| Board.SpellUppered | js/wordValidator.js:53 | spelling a path over upper-cased dice is the upper-case of the spelling |
| WordSolver.Normalised | js/wordSolver.js:22 | each word is the trimmed, lower-cased line |
| WordSolver.LongWords | js/wordSolver.js:26-27 | the `length < 3` skip: every indexed word has at least 3 characters |
| WordSolver.LongWordsMembers | js/wordSolver.js:26-27 | the indexed words are exactly the normalised words of length ≥ 3 |
| WordSolver.IndexedWordsShape | js/wordSolver.js:22-27 | every indexed word is lower case and has at least 3 letters |
| WordSolver.SolveFromSound | js/wordSolver.js:58-83 | every word the search from a cell reports is in the trie, meets `minWordLen`, and is the current prefix plus a simple path from that cell |
| WordSolver.SolveFromComplete | js/wordSolver.js:58-83 | every simple path from the cell whose spelling completes a long-enough trie word is reported |
| WordSolver.SolveStartsSpec | js/wordSolver.js:42-56 | searching from every start cell finds w iff w is in the word list, is long enough and can be traced on the board |
| WordSolver.SolveMinLenMonotone | js/wordSolver.js:71 | raising the minimum length only removes words |
| WordSolver.Dfs | js/wordSolver.js:58-83 | the recursive DFS over the visited array adds exactly `SolveFrom` of the lower-cased dice and leaves `visited` as it found it |
| WordSolver.MatchSound | js/wordSolver.js:104-127 | every recorded path is the current path plus a simple path from the cell that spells the rest of the word |
| WordSolver.MatchComplete | js/wordSolver.js:104-127 | every simple path from the cell that spells the rest of the word is recorded (given no blank dice) |
| WordSolver.MatchStartsSpec | js/wordSolver.js:90-102 | every path found from all starts is a non-empty trail on the board spelling the word; with no blank dice, every such trail is found |
| WordSolver.MatchReaches | js/wordSolver.js:104-127 | whenever a simple path from the cell spells the rest of the word, the search records some path, whatever the dice hold |
| WordSolver.MatchStartsReach | js/wordSolver.js:90-102 | `findWordPaths` returns some path whenever the word can be traced on the board |
| WordSolver.FindPaths | js/wordSolver.js:104-127 | the recursive path finder appends exactly `MatchFrom` to the list and restores `visited` |
| WordSolver.Solver.constructor | js/wordSolver.js:16 | no trie is loaded at start |
| WordSolver.Solver.LoadWordList | js/wordSolver.js:18-35 | a second load does nothing; the first builds a trie whose words are the indexed lines |
| WordSolver.Solver.SolveGrid | js/wordSolver.js:42-56 | fails when no list is loaded, otherwise returns the union of the searches from every cell |
| WordSolver.Solver.SolveGridSpec | js/wordSolver.js:42-56 | the solver's result is exactly the loaded words of length ≥ `minWordLen` that can be traced on the grid, all lower case |
| WordSolver.FindWordPaths | js/wordSolver.js:90-102 | returns exactly the paths from every start that spell the lower-cased word |
| WordSolver.FoundWordsHavePaths | js/wordSolver.js:42-127 | every word the solver finds has at least one highlight path |
| WordValidator.Cat | js/wordValidator.js:62-78 | joining two trace records adds their path counts |
| WordValidator.ExplorePaths | js/wordValidator.js:52-83 | the recursive explorer appends exactly `ExploreFrom` of the upper-cased dice and restores `visited` |
| WordValidator.ExploreFromComplete | js/wordValidator.js:62-64 | the complete paths the validator records are exactly the paths the path finder records |
| WordValidator.ExploreStartsComplete | js/wordValidator.js:35-38 | the same holds when every start cell is explored |
| WordValidator.ExploreFromRecords | js/wordValidator.js:56-78 | the explorer records some path from a cell iff the die on that cell matches the rest of the input |
| WordValidator.ExplorePartialSound | js/wordValidator.js:67-78 | every partial path extends the current path by a simple path that spells a proper prefix of the rest of the input, and no unvisited neighbour of its end matches the next letters |
| WordValidator.ExploreAllStarts | js/wordValidator.js:35-38 | the start-cell loop collects exactly the explorations from every cell |
| WordValidator.Validate | js/wordValidator.js:23-45 | the status is empty exactly for empty input, which has no paths; otherwise it is valid exactly when some complete path was found |
| WordValidator.ValidateInput | js/wordValidator.js:23-45 | returns `Validate`; the adjacency cache is touched only for non-empty input |
| WordValidator.ValidateSpec | js/wordValidator.js:23-45 | the status is empty iff nothing was typed; complete paths are board trails spelling the input; non-empty input is valid iff it can be traced on the board |
| WordValidator.ValidatePartialSpec | js/wordValidator.js:67-78 | every partial path is a board trail spelling a proper prefix of the input that no unused neighbour can extend |
| WordValidator.SolvedWordsValidate | js/wordSolver.js:42-83 | every word the solver finds is shown as valid when typed (the trie holds no empty word) |
| GameState.ScoreWord | js/gameState.js:149-156 | the score lies in 1..11; it is 1 exactly for words of at most 4 letters and 11 exactly for 8 or more |
| GameState.ScoreMonotone | js/gameState.js:149-156 | a longer word never scores less |
| GameState.TotalScoreRemove | js/gameState.js:141-146 | the summed score of a set is any member's score plus the rest's |
| GameState.TotalScoreAdd | js/gameState.js:118 | adding a new word adds its score |
| GameState.TotalScoreSubset | js/gameState.js:141-146 | a subset never scores more, and a proper subset scores strictly less |
| GameState.InsertByScore | js/gameState.js:130 | inserting into the ordered list adds exactly one occurrence of the word |
| GameState.InsertByScoreSorted | js/gameState.js:130 | insertion keeps the list in non-increasing score order |
| GameState.SortByScore | js/gameState.js:130-139 | the result lists each word of the set once, in non-increasing score order |
| GameState.SizeOf | js/gameState.js:6-13 | known grid sizes have 2 ≤ cols ≤ rows ≤ 6 |
| GameState.Session.constructor | js/gameState.js:60-79 | the initial setup choices and an empty game in the setup phase |
| GameState.Session.SetGridSize | js/gameState.js:83-88 | an unknown size is an error and changes nothing; a known one sets the key, rows and cols |
| GameState.Session.SetDifficulty | js/gameState.js:90-92 | stores the difficulty, nothing else changes |
| GameState.Session.SetDuration | js/gameState.js:94-97 | a duration outside the allowed list is an error and changes nothing; otherwise it is stored |
| GameState.Session.SetMinWordLen | js/gameState.js:99-102 | a length outside 3..6 is an error and changes nothing; otherwise it is stored |
| GameState.Session.StartGame | js/gameState.js:104-111 | installs grid and words, clears found words and score, resets the clock to the duration, enters play |
| GameState.Session.SubmitWord | js/gameState.js:113-120 | duplicate if already found, invalid if not a grid word, otherwise the lower-cased word is added and scored |
| GameState.Session.EndGame | js/gameState.js:122-128 | enters results and clears the timer; the game data is kept |
| GameState.Session.GetMissedWords | js/gameState.js:132-135 | no words before a game; otherwise exactly the unfound grid words, once each, by descending score |
| GameState.Session.GetFoundWordsSorted | js/gameState.js:137-139 | exactly the found words, once each, by descending score |
| GameState.Session.GetMaxScore | js/gameState.js:141-146 | 0 before a game, otherwise the summed score of all grid words |
| GameState.Session.ScoreAtMostMax | js/gameState.js:113-146 | the score never exceeds the maximum, and equals it iff every word was found |
| Dictionary.MinLenOf | js/dictionary.js:26 | a missing or zero minimum becomes 1, any other number is kept |
| Dictionary.MaxLenOf | js/dictionary.js:27-28 | only a positive maximum bounds the length |
| Dictionary.PatternMatch | js/dictionary.js:35-37 | the escaped, anchored pattern matches only words of the query's length |
| Dictionary.PatternMatchIff | js/dictionary.js:35-43 | a wildcard query matches iff the word has its length, `_` matches any non-line-terminator and other characters match themselves |
| Dictionary.Keep | js/dictionary.js:40-47 | the filter test: with an empty query exactly the words within the length bounds pass; with a wildcard query only words of the query's length pass |
| Dictionary.Filter | js/dictionary.js:40-47 | `allWords.filter(...)`: the result is no longer than the list |
| Dictionary.FilterKeepsAll | js/dictionary.js:40-47 | when every word passes, filtering returns the whole list unchanged |
| Dictionary.FilterSpec | js/dictionary.js:40-47 | the filtered list is picked from the word list in order, every picked word passes the filter, and every position holding a passing word is picked, repeats included |
| Dictionary.KeepBounds | js/dictionary.js:41 | every kept word respects the length bounds |
| Dictionary.KeepContains | js/dictionary.js:42-46 | without a wildcard every kept word contains the query, so it would also pass in contains mode |
| Dictionary.CeilPages | js/dictionary.js:97 | the page count is the least number of 50-word pages covering the list |
| Dictionary.TotalPages | js/dictionary.js:55 | at least one page, and pages cover the list |
| Dictionary.PageWords | js/dictionary.js:56-57 | a page holds at most 50 words taken in order from its start; pages before the last are non-empty |
| Dictionary.PagesCover | js/dictionary.js:55-57 | the k-th filtered word appears on page k / 50 at position k % 50 |
| Dictionary.Browser.constructor | js/dictionary.js:5-106 | after loading, all words are shown (`filteredWords = [...allWords]`, line 106) on the first page in prefix mode (lines 7-8) |
| Dictionary.Browser.ApplyFilters | js/dictionary.js:24-51 | the filtered list is `Filter` of the trimmed, lower-cased query and parsed bounds; page reset to 0 |
| Dictionary.Browser.SelectMode | js/dictionary.js:84-87 | stores the mode and re-filters with it |
| Dictionary.Browser.ShownWords | js/dictionary.js:53-66 | at most 50 words, taken in order from the current page's start, and some word whenever the filter kept any |
| Dictionary.Browser.Prev | js/dictionary.js:89-93 | goes back one page unless on the first |
| Dictionary.Browser.Next | js/dictionary.js:95-100 | goes forward one page unless on the last |
| App.TapAccepted | js/app.js:354-359 | an accepted tap names a cell not yet on the path, at most `cols + 1` indices from the last tapped cell |
| App.TapExtends | js/app.js:351-367 | tapping a cell extends a valid tap path to a valid tap path iff the tap is accepted (unused cell, adjacent to the last one) |
| App.TapChainIsTrail | js/app.js:323-327 | a tap path of on-board cells satisfies the tap rules iff it is a trail of the generated adjacency |
| App.Join | js/app.js:434 | `tapHistory.join('')`: one part joins to itself, and the join is empty exactly when every part is empty |
| App.TapsSpell | js/app.js:434 | joining the tapped letters spells the tap path |
| App.SliceDropLast | js/app.js:375 | `slice(0, -k)` yields a prefix shorter by k, and the empty string for k = 0 or k ≥ length |
| App.DropAppended | js/app.js:364-375 | deleting the last tapped letter undoes appending it |
| App.UpIndex | js/app.js:329-333 | the index stays in range, jumps to an entry when history is non-empty, and stays put only at the oldest entry or with no history |
| App.DownIndex | js/app.js:338-346 | the index stays in range and leaves navigation exactly from the newest entry |
| App.DownUndoesUp | js/app.js:329-346 | a step down undoes a step up that moved |
| App.UpUndoesDown | js/app.js:329-346 | a step up undoes a step down |
| App.Controller.constructor | js/app.js:306-312 | empty input, history and tap record |
| App.Controller.ResetHistory | js/app.js:314-320 | clears the history and the tap record, keeps the input |
| App.Controller.HandleCellTap | js/app.js:351-367 | out of play or a rejected tap changes nothing; otherwise the cell and letter are appended, the letter is typed and navigation ends |
| App.Controller.HandleDeleteLetter | js/app.js:369-381 | removes the last tapped die's letters, or the last character when nothing was tapped; nothing out of play or with empty input |
| App.Controller.HandleKeyboardInput | js/app.js:385-391 | a keyboard edit clears the tap record and ends history navigation |
| App.Controller.HistoryUp | js/app.js:329-336 | moves the index as `UpIndex` and shows that entry when it moved |
| App.Controller.HistoryDown | js/app.js:338-348 | moves the index as `DownIndex`, showing the entry or clearing the input |
| App.Controller.HandleSubmit | js/app.js:443-470 | nothing unless playing with non-blank input; otherwise records the trimmed word in history, clears taps and input, submits, and ends the game on a sweep |

## Left out

- Fetching the word list, the DOM, rendering, hints, highlighting and timers (`setInterval`, the countdown, the debounce). These are I/O; the lines of the list are a parameter.
- Random grid generation and the difficulty retry loop in gridGenerator.js and app.js. They depend on randomness.
- WordSolver.Solver.SolveGrid: takes `minWordLen` with no default. The source defaults it to 4, but every caller passes it (js/app.js:208 and 218, js/solver.js:206).
- Case mapping and trimming are ASCII only. JavaScript's full Unicode mapping is not modelled.
- The grid is the flattened row-major sequence of dice (`grid.flat()`), not the 2-D array.
- `currentPath` and the result lists are passed by value and returned. The source mutates shared arrays; the visited array is kept as a real array.
- The trie walk inside `dfs` is factored into `Trie.Walk`. The start-cell loop of `validateInput` is factored into `WordValidator.ExploreAllStarts`.
- SortByScore: orders by score only. The `localeCompare` tie-break among equal scores is not modelled, because the ordering is locale-dependent.
- GameState.Session.GetMissedWords, GameState.Session.GetFoundWordsSorted: as in SortByScore, the `localeCompare` tie-break is not modelled; the order among equal scores is left open.
- GameState.SizeOf: keys inherited from `Object.prototype` (such as `"toString"`) are not modelled as accepted grid sizes.
- GameState.Session.SubmitWord: requires a game to have been started. The source throws on a missing word set.
- Dictionary.MinLenOf, Dictionary.MaxLenOf: `parseInt` is modelled as an optional integer. Digit parsing is left out.
- WordSolver.MatchComplete, WordSolver.MatchStartsSpec: the claim that every spelling path is listed assumes no blank die. With an empty die face, the search stops at the shorter path that spells the same text. Dice faces are never empty in the program, and that some path is listed holds without the assumption (WordSolver.MatchStartsReach).
- App.Controller.HistoryUp, App.Controller.HistoryDown: they keep the tap record, as the source does.
- App.Controller.HandleSubmit: performs the session calls before updating its own fields. The two sets of effects are independent.
- App.Controller: the controller never changes the grid size. Changing it on the session during play could break the tap-path invariant, which uses the session's column count.
